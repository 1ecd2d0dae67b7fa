/**
 * The daily recitation pre-clip: play a fixed window of one long file,
 * starting from a stored offset and looping at its end, then store the
 * offset for the next session.
 */
module Segment {
  import opened Wrappers

  /** Length of one playback window, in seconds. */
  const PRECLIP_SECONDS := 600

  /** One `pygame.mixer.music.play(start=start)` left running for `length` seconds. */
  datatype Play = Play(start: int, length: int)

  /** The stored offset as `load_offset` reads it: 0 when the file is absent or unreadable. */
  function Loaded(stored: Option<int>): (r: int)
    ensures r != 0 ==> stored == Some(r)
    ensures r == 0 <==> stored.None? || stored == Some(0)
  {
    if stored.Some? then stored.value else 0
  }

  /** Total playing time of a sequence of plays. */
  function Total(ps: seq<Play>): int {
    if ps == [] then 0 else ps[0].length + Total(ps[1..])
  }

  /**
   * The plays of a window of `window` seconds that starts `start` seconds
   * into a file of `duration` seconds: the rest of the file, then the file
   * from its beginning, until the window is used up.
   */
  function WindowPlays(start: int, duration: int, window: int): (ps: seq<Play>)
    requires 0 <= start < duration
    ensures window <= 0 <==> ps == []
    ensures ps != [] ==> ps[0].start == start
    decreases window
  {
    if window <= 0 then []
    else if window <= duration - start then [Play(start, window)]
    else [Play(start, duration - start)] + WindowPlays(0, duration, window - (duration - start))
  }

  /**
   * A window plays for exactly its length; each play lies inside the file;
   * every play after the first starts at 0; every play but the last runs to
   * the end of the file, so the loop is seamless.
   */
  lemma {:induction false} WindowPlaysShape(start: int, duration: int, window: int)
    requires 0 <= start < duration
    ensures var ps := WindowPlays(start, duration, window);
      && Total(ps) == (if window > 0 then window else 0)
      && (forall i :: 0 <= i < |ps| ==> 0 <= ps[i].start && 0 < ps[i].length && ps[i].start + ps[i].length <= duration)
      && (forall i :: 0 < i < |ps| ==> ps[i].start == 0)
      && (forall i :: 0 <= i < |ps| - 1 ==> ps[i].start + ps[i].length == duration)
    decreases window
  {
    if window > duration - start {
      var rest := WindowPlays(0, duration, window - (duration - start));
      WindowPlaysShape(0, duration, window - (duration - start));
      var ps := [Play(start, duration - start)] + rest;
      assert ps[1..] == rest;
      assert forall i :: 0 < i < |ps| ==> ps[i] == rest[i - 1];
    }
  }

  /** One step of the window: the first play, then the window that remains after it. */
  lemma WindowPlaysStep(start: int, duration: int, window: int, playTime: int)
    requires 0 <= start < duration && window > 0
    requires playTime == if duration - start <= window then duration - start else window
    ensures WindowPlays(start, duration, window) == [Play(start, playTime)] + WindowPlays(0, duration, window - playTime)
  {
  }

  /** Where in the file the window's last play stops. */
  function StopPosition(ps: seq<Play>, duration: int): int
    requires ps != [] && duration > 0
  {
    (ps[|ps| - 1].start + ps[|ps| - 1].length) % duration
  }

  /** A positive multiple of a positive number is at least that number. */
  lemma {:induction false} MultipleAtLeast(k: int, d: int)
    requires k >= 1 && d > 0
    ensures k * d >= d
    decreases k
  {
    if k > 1 {
      MultipleAtLeast(k - 1, d);
      assert k * d == (k - 1) * d + d;
    }
  }

  /** Euclidean division has one quotient and one remainder. */
  lemma ModOfRepresentation(x: int, q: int, r: int, d: int)
    requires d > 0 && 0 <= r < d && x == q * d + r
    ensures x % d == r
  {
    var q0, r0 := x / d, x % d;
    assert x == q0 * d + r0;
    var k := q - q0;
    assert k * d == q * d - q0 * d;
    assert k * d == r0 - r;
    if k >= 1 {
      MultipleAtLeast(k, d);
    } else if k <= -1 {
      MultipleAtLeast(-k, d);
    }
  }

  lemma ModMinusDivisor(x: int, d: int)
    requires d > 0
    ensures (x - d) % d == x % d
  {
    var q, r := x / d, x % d;
    assert x == q * d + r;
    assert x - d == (q - 1) * d + r;
    ModOfRepresentation(x - d, q - 1, r, d);
  }

  /** A window starting at `start` stops at `start + window`, modulo the file's length. */
  lemma {:induction false} StopsAtStartPlusWindow(start: int, duration: int, window: int)
    requires 0 <= start < duration && window > 0
    ensures StopPosition(WindowPlays(start, duration, window), duration) == (start + window) % duration
    decreases window
  {
    if window > duration - start {
      var rest := window - (duration - start);
      StopsAtStartPlusWindow(0, duration, rest);
      ModMinusDivisor(start + window, duration);
    }
  }

  /** Offsets that differ by a whole number of files are the same point of the file. */
  lemma ModUnique(x: int, y: int, d: int)
    requires d > 0 && 0 <= x < d
    requires (x + y) % d == y % d
    ensures x == 0
  {
    var q, r := y / d, y % d;
    assert y == q * d + r;
    if x + r < d {
      assert x + y == q * d + (x + r);
      ModOfRepresentation(x + y, q, x + r, d);
    } else {
      assert x + y == (q + 1) * d + (x + r - d);
      ModOfRepresentation(x + y, q + 1, x + r - d, d);
    }
  }

  /**
   * The saved offset, `window mod duration`, is where the window stopped
   * exactly when the window started at offset 0: the promise to resume
   * "from where it last stopped" holds only for sessions that start at the
   * beginning of the file.
   */
  lemma ResumeOnlyFromZero(start: int, duration: int, window: int)
    requires 0 <= start < duration && window > 0
    ensures window % duration == StopPosition(WindowPlays(start, duration, window), duration) <==> start == 0
  {
    StopsAtStartPlusWindow(start, duration, window);
    if window % duration == (start + window) % duration {
      ModUnique(start, window, duration);
    }
  }

  /**
   * The `while time.time() < end_time` loop of `_play_loop`, on a clock that
   * only `sleep` advances: play the rest of the file, rewind to 0, and
   * repeat until the window closes.
   */
  method PlayUntil(start: int, duration: int, clockStart: int, endTime: int)
    returns (plays: seq<Play>, offset: int, clock: int)
    requires 0 <= start < duration
    ensures plays == WindowPlays(start, duration, endTime - clockStart)
    ensures plays == [] ==> offset == start && clock == clockStart
    ensures plays != [] ==> offset == 0 && clock == endTime
  {
    clock := clockStart;
    offset := start;
    plays := [];
    while clock < endTime
      invariant 0 <= offset < duration
      invariant plays + WindowPlays(offset, duration, endTime - clock) == WindowPlays(start, duration, endTime - clockStart)
      invariant |plays| == 0 ==> offset == start && clock == clockStart
      invariant |plays| > 0 ==> offset == 0 && clock <= endTime
      decreases endTime - clock
    {
      var remainingClip := duration - offset;
      var remainingTotal := endTime - clock;
      var playTime := if remainingClip <= remainingTotal then remainingClip else remainingTotal;
      PlayStep(plays, offset, duration, remainingTotal, playTime);
      plays := plays + [Play(offset, playTime)];
      clock := clock + playTime;  // time.sleep(play_time)
      offset := 0;
    }
  }

  /**
   * One iteration of the loop plays the first play of what remains of the
   * window, for a positive time that does not overrun the window.
   */
  lemma PlayStep(plays: seq<Play>, offset: int, duration: int, remaining: int, playTime: int)
    requires 0 <= offset < duration && remaining > 0
    requires playTime == if duration - offset <= remaining then duration - offset else remaining
    ensures 0 < playTime <= remaining
    ensures plays + WindowPlays(offset, duration, remaining)
         == (plays + [Play(offset, playTime)]) + WindowPlays(0, duration, remaining - playTime)
  {
    WindowPlaysStep(offset, duration, remaining, playTime);
    ConcatStep(plays, Play(offset, playTime), WindowPlays(0, duration, remaining - playTime));
  }

  lemma ConcatStep(ps: seq<Play>, p: Play, rest: seq<Play>)
    ensures (ps + [p]) + rest == ps + ([p] + rest)
  {
  }

  /**
   * `_play_loop`: play a window of `window` seconds from `start`, then
   * compute the offset to save from the offset and the time elapsed.
   */
  method RunWindow(start: int, duration: int, window: int, clockStart: int) returns (plays: seq<Play>, nextOffset: int)
    requires 0 <= start < duration
    ensures plays == WindowPlays(start, duration, window)
    ensures window > 0 ==> nextOffset == window % duration
    ensures window <= 0 ==> nextOffset == start
    ensures 0 <= nextOffset < duration
  {
    var endTime := clockStart + window;
    var offset, clock;
    plays, offset, clock := PlayUntil(start, duration, clockStart, endTime);
    var travelled := offset + (clock - (endTime - window));
    if window <= 0 {
      ModOfRepresentation(start, 0, start, duration);
    }
    nextOffset := travelled % duration;
  }

  /** The single-value store behind `load_offset` and `save_offset`. */
  class OffsetStore {
    /** The saved offset; None when the file is absent or unreadable. */
    var stored: Option<int>

    constructor (stored: Option<int>)
      ensures this.stored == stored
    {
      this.stored := stored;
    }

    method Load() returns (offset: int)
      ensures offset == Loaded(stored)
    {
      offset := Loaded(stored);
    }

    method Save(offset: int)
      modifies this
      ensures stored == Some(offset)
    {
      stored := Some(offset);
    }

    /** `reset_quran_offset`: the next session starts from the beginning. */
    method Reset()
      modifies this
      ensures stored == Some(0) && Loaded(stored) == 0
    {
      Save(0);
    }
  }

  /**
   * `play_quran_segment`.  `duration` is the file's length as probed, None
   * when the player, the file or its length is unavailable; then nothing
   * plays and nothing is saved.
   */
  method PlayQuranSegment(store: OffsetStore, duration: Option<int>, clockStart: int) returns (plays: seq<Play>)
    modifies store
    ensures (duration.None? || duration.value <= 0) ==> plays == [] && store.stored == old(store.stored)
    ensures duration.Some? && duration.value > 0 ==>
      && plays == WindowPlays(Loaded(old(store.stored)) % duration.value, duration.value, PRECLIP_SECONDS)
      && store.stored == Some(PRECLIP_SECONDS % duration.value)
  {
    if duration.None? || duration.value <= 0 {
      return [];
    }
    var d := duration.value;
    var loaded := store.Load();
    var offset := loaded % d;
    var nextOffset;
    plays, nextOffset := RunWindow(offset, d, PRECLIP_SECONDS, clockStart);
    store.Save(nextOffset);
  }

  /**
   * The two boundary cases: a 400 s file in a 600 s window plays it once
   * and then 200 s of it again, saving 200; a 600 s file plays once and
   * saves 0.  A session starting at 100 in the 400 s file stops at 300 but
   * saves 200.
   */
  lemma WindowExamples()
    ensures WindowPlays(0, 400, 600) == [Play(0, 400), Play(0, 200)] && 600 % 400 == 200
    ensures WindowPlays(0, 600, 600) == [Play(0, 600)] && 600 % 600 == 0
    ensures WindowPlays(100, 400, 600) == [Play(100, 300), Play(0, 300)]
    ensures StopPosition(WindowPlays(100, 400, 600), 400) == 300 != 600 % 400
  {
    assert WindowPlays(0, 400, 200) == [Play(0, 200)];
    assert WindowPlays(0, 400, 300) == [Play(0, 300)];
  }
}
