/**
 * The daemon's polling loop: rebuild the schedule when the refresh policy
 * asks for it, then fire every event whose trigger window contains the
 * current instant, once per schedule generation.
 */
module Engine {
  import opened Wrappers
  import opened Clock
  import opened Schedule
  import opened Refresh

  const TRIGGER_WINDOW_SEC := 60

  /** `(label, t.date(), t.time())`: what the fired set remembers of an event. */
  datatype Key = Key(name: string, date: int, time: SecondOfDay)

  function KeyOf(e: Event): (k: Key)
    ensures k.name == e.name && At(k.date, k.time) == e.at
  {
    DateTimeRoundTrip(e.at, 0, 0);
    Key(e.name, Day(e.at), TimeOfDay(e.at))
  }

  /** Two events share a key exactly when they share label and instant. */
  lemma KeyOfInjective(e1: Event, e2: Event)
    ensures KeyOf(e1) == KeyOf(e2) <==> e1.name == e2.name && e1.at == e2.at
  {
    DateTimeInjective(e1.at, e2.at);
  }

  /** The trigger window: from the event's instant, for 60 seconds. */
  predicate Due(now: int, t: int): (r: bool)
    ensures r <==> t <= now < t + TRIGGER_WINDOW_SEC
  {
    0 <= now - t < TRIGGER_WINDOW_SEC
  }

  function KeysOf(s: seq<Event>): set<Key> {
    set e | e in s :: KeyOf(e)
  }

  /** `a` is `b` with some elements left out: its elements occur in `b` in the same order. */
  predicate Subsequence<T(==)>(a: seq<T>, b: seq<T>)
    decreases |b|
  {
    a == [] || (b != [] &&
      ((a[|a| - 1] == b[|b| - 1] && Subsequence(a[..|a| - 1], b[..|b| - 1])) || Subsequence(a, b[..|b| - 1])))
  }

  /** The events fired by one pass over the schedule, and the fired set after it. */
  datatype PassResult = PassResult(firedNow: seq<Event>, fired: set<Key>)

  /**
   * One pass of the `for` loop over the schedule, with the fired set
   * `fired` on entry: skip events whose key was fired, fire the due ones
   * and remember their keys.
   */
  function Pass(s: seq<Event>, fired: set<Key>, now: int): (r: PassResult)
    ensures r.fired == fired + KeysOf(r.firedNow)
    ensures forall e :: e in r.firedNow ==> e in s && Due(now, e.at) && KeyOf(e) !in fired
    ensures forall i, j :: 0 <= i < j < |r.firedNow| ==> KeyOf(r.firedNow[i]) != KeyOf(r.firedNow[j])
    ensures forall e :: e in s ==> (KeyOf(e) in r.fired <==> KeyOf(e) in fired || Due(now, e.at))
    decreases |s|
  {
    if s == [] then PassResult([], fired)
    else
      var init := s[..|s| - 1];
      var e := s[|s| - 1];
      assert s == init + [e];
      var r := Pass(init, fired, now);
      if KeyOf(e) in r.fired || !Due(now, e.at) then
        assert forall x :: x in init && KeyOf(x) == KeyOf(e) ==> x.at == e.at by {
          forall x | x in init && KeyOf(x) == KeyOf(e) ensures x.at == e.at { KeyOfInjective(x, e); }
        }
        r
      else
        var fired' := r.fired + {KeyOf(e)};
        var firedNow' := r.firedNow + [e];
        assert KeysOf(firedNow') == KeysOf(r.firedNow) + {KeyOf(e)};
        PassResult(firedNow', fired')
  }

  /** A pass fires events in schedule order. */
  lemma {:induction false} PassInOrder(s: seq<Event>, fired: set<Key>, now: int)
    ensures Subsequence(Pass(s, fired, now).firedNow, s)
    decreases |s|
  {
    if s != [] {
      var init := s[..|s| - 1];
      PassInOrder(init, fired, now);
      var a := Pass(init, fired, now).firedNow;
      var b := Pass(s, fired, now).firedNow;
      if b != a {
        assert b == a + [s[|s| - 1]];
        assert b[..|b| - 1] == a;
      }
    }
  }

  /**
   * A sequence is empty or holds its first element.  Stated apart so that
   * `PassIdempotent` need not index a sequence its facts already show empty.
   */
  lemma EmptyOrHasHead(s: seq<Event>)
    ensures s == [] || s[0] in s
  {
  }

  /** A second pass at the same instant fires nothing. */
  lemma PassIdempotent(s: seq<Event>, fired: set<Key>, now: int)
    ensures Pass(s, Pass(s, fired, now).fired, now).firedNow == []
  {
    var r2 := Pass(s, Pass(s, fired, now).fired, now);
    EmptyOrHasHead(r2.firedNow);
  }

  datatype EngineState = EngineState(schedule: seq<Event>, fired: set<Key>, refresh: RefreshState)

  datatype TickResult = TickResult(state: EngineState, firedNow: seq<Event>)

  /** Before the first build: no schedule, nothing fired, never refreshed. */
  const START := EngineState([], {}, INITIAL)

  /**
   * One iteration of the polling loop at `now`.  `source` is what fetching
   * the day's times would return (None when the source is unavailable),
   * `today` the date read once the fetch has returned, and `ishaPreExists`
   * whether the Isha pre-file is on disk; the three are consulted only when
   * a rebuild is due.  A failed rebuild skips the rest of the iteration.
   * Every event fired is due and in the schedule of the new state, and the
   * fired set afterwards is the one carried in (empty after a successful
   * rebuild) plus the keys of exactly the events fired; without a rebuild
   * the schedule and the refresh bookkeeping stay as they were.
   */
  function Step(st: EngineState, now: int, today: int, source: Option<Times>, ishaPreExists: bool): (r: TickResult)
    ensures forall e :: e in r.firedNow ==> e in r.state.schedule && Due(now, e.at)
    ensures r.state.fired == (if ShouldRefresh(now, st.refresh) && source.Some? then {} else st.fired) + KeysOf(r.firedNow)
    ensures !ShouldRefresh(now, st.refresh) ==>
      r.state.schedule == st.schedule && st.fired <= r.state.fired && r.state.refresh == st.refresh
  {
    SettleIsRedundant(st.refresh, now, today);
    if ShouldRefresh(now, st.refresh) then
      if source.None? then TickResult(st, [])
      else
        var schedule := Built(source.value, today, Weekday(today), ishaPreExists);
        var p := Pass(schedule, {}, now);
        TickResult(EngineState(schedule, p.fired, Settle(Rebuilt(now, today), now)), p.firedNow)
    else
      var p := Pass(st.schedule, st.fired, now);
      TickResult(EngineState(st.schedule, p.fired, Settle(st.refresh, now)), p.firedNow)
  }

  /** Every remembered key belongs to an event of the current schedule: no key outlives its generation. */
  ghost predicate Generational(st: EngineState) {
    forall k :: k in st.fired ==> exists e :: e in st.schedule && KeyOf(e) == k
  }

  lemma StepKeepsGenerational(st: EngineState, now: int, today: int, source: Option<Times>, ishaPreExists: bool)
    requires Generational(st)
    ensures Generational(Step(st, now, today, source, ishaPreExists).state)
  {
    var r := Step(st, now, today, source, ishaPreExists);
    forall k | k in r.state.fired ensures exists e :: e in r.state.schedule && KeyOf(e) == k {
      if k !in st.fired || r.state.schedule != st.schedule {
        var e :| e in r.firedNow && KeyOf(e) == k;
      }
    }
  }

  /**
   * A due rebuild either succeeds, replacing the schedule with the one built
   * for `today`, recording `today` and whether the tick started at or after
   * 02:00, and keeping no key of the previous generation; or fails and
   * changes nothing.  After a success the refresh is settled for `now`
   * exactly when `today` is the date of `now`.
   */
  lemma RebuildOutcome(st: EngineState, now: int, today: int, source: Option<Times>, ishaPreExists: bool)
    requires ShouldRefresh(now, st.refresh)
    ensures var r := Step(st, now, today, source, ishaPreExists);
      source.None? ==> r.state == st && r.firedNow == []
    ensures var r := Step(st, now, today, source, ishaPreExists);
      source.Some? ==>
        && r.state.schedule == Built(source.value, today, Weekday(today), ishaPreExists)
        && r.state.refresh == RefreshState(Some(today), TimeOfDay(now) >= TWO_AM)
        && r.state.fired == KeysOf(r.firedNow)
        && (!ShouldRefresh(now, r.state.refresh) <==> today == Day(now))
  {
    SettleIsRedundant(st.refresh, now, today);
  }

  /** Once the post-02:00 rebuild has happened, ticks on that date keep the schedule and only add to the fired set. */
  lemma NoRebuildOnceSettled(st: EngineState, now: int, today: int, source: Option<Times>, ishaPreExists: bool)
    requires st.refresh == RefreshState(Some(Day(now)), true)
    ensures var r := Step(st, now, today, source, ishaPreExists);
      r.state.schedule == st.schedule && st.fired <= r.state.fired && r.state.refresh == st.refresh
  {
  }

  /**
   * Within a tick, an event whose key is not yet fired fires exactly when
   * the instant lies in its trigger window, and no key fires twice.
   */
  lemma TickFiresDueEvents(st: EngineState, now: int, today: int, source: Option<Times>, ishaPreExists: bool)
    requires !(ShouldRefresh(now, st.refresh) && source.None?)
    ensures var r := Step(st, now, today, source, ishaPreExists);
      var before := if ShouldRefresh(now, st.refresh) then {} else st.fired;
      && r.state.fired == before + KeysOf(r.firedNow)
      && (forall e :: e in r.state.schedule && KeyOf(e) !in before ==> (KeyOf(e) in r.state.fired <==> Due(now, e.at)))
      && (forall e :: e in r.firedNow ==> e in r.state.schedule && KeyOf(e) !in before && Due(now, e.at))
      && (forall i, j :: 0 <= i < j < |r.firedNow| ==> KeyOf(r.firedNow[i]) != KeyOf(r.firedNow[j]))
  {
  }

  /**
   * A second tick at the same instant fires nothing, unless the first was a
   * failed rebuild or a rebuild whose fetch returned on a later date.
   */
  lemma TickIdempotent(st: EngineState, now: int, today: int, source: Option<Times>, ishaPreExists: bool,
                       today2: int, source2: Option<Times>, ishaPreExists2: bool)
    requires !(ShouldRefresh(now, st.refresh) && source.None?)
    requires ShouldRefresh(now, st.refresh) ==> today == Day(now)
    ensures Step(Step(st, now, today, source, ishaPreExists).state, now, today2, source2, ishaPreExists2).firedNow == []
  {
    var r := Step(st, now, today, source, ishaPreExists);
    SettleIsRedundant(st.refresh, now, today);
    assert !ShouldRefresh(now, r.state.refresh);
    if ShouldRefresh(now, st.refresh) {
      PassIdempotent(r.state.schedule, {}, now);
    } else {
      PassIdempotent(st.schedule, st.fired, now);
    }
  }

  /**
   * The post-02:00 flag is set after a tick only if the bookkeeping is
   * unchanged, or this tick rebuilt the schedule from a tick that started at
   * or after 02:00; the date recorded with the flag is then `today`, read
   * after the fetch, which is not necessarily the date of `now`.
   */
  lemma After2amFlagMeansRebuilt(st: EngineState, now: int, today: int, source: Option<Times>, ishaPreExists: bool)
    ensures var r := Step(st, now, today, source, ishaPreExists);
      r.state.refresh.refreshedAfter2am ==>
        r.state.refresh == st.refresh
        || (ShouldRefresh(now, st.refresh) && source.Some? && TimeOfDay(now) >= TWO_AM
            && r.state.refresh == RefreshState(Some(today), true))
  {
    SettleIsRedundant(st.refresh, now, today);
  }

  /**
   * The source clears the fired set on every rebuild, the post-02:00 one
   * included, so an event fired shortly before the rebuild whose trigger
   * window still holds `now` fires a second time.
   */
  lemma RefireAcrossRebuild(st: EngineState, now: int, today: int, source: Option<Times>, ishaPreExists: bool, e: Event)
    requires ShouldRefresh(now, st.refresh) && source.Some?
    requires e in Built(source.value, today, Weekday(today), ishaPreExists) && Due(now, e.at)
    requires KeyOf(e) in st.fired
    ensures e in Step(st, now, today, source, ishaPreExists).firedNow
  {
    var schedule := Built(source.value, today, Weekday(today), ishaPreExists);
    var p := Pass(schedule, {}, now);
    assert KeyOf(e) in KeysOf(p.firedNow);
    var e' :| e' in p.firedNow && KeyOf(e') == KeyOf(e);
    KeyOfInjective(e', e);
    BuiltLabelsDistinct(source.value, today, Weekday(today), ishaPreExists, e', e);
  }

  /**
   * The polling step with the fired set carried across rebuilds: a rebuild
   * keeps the keys of the previous generation that name events of the new
   * schedule.  No event fires whose key was already fired, every key of the
   * previous generation that is still scheduled stays remembered, and every
   * event fired is due and in the new schedule.
   */
  function StepOnce(st: EngineState, now: int, today: int, source: Option<Times>, ishaPreExists: bool): (r: TickResult)
    ensures forall e :: e in r.firedNow ==> e in r.state.schedule && Due(now, e.at) && KeyOf(e) !in st.fired
    ensures KeysOf(r.firedNow) <= r.state.fired
    ensures st.fired * KeysOf(r.state.schedule) <= r.state.fired
    ensures !(ShouldRefresh(now, st.refresh) && source.None?) ==>
      forall e :: e in r.state.schedule && KeyOf(e) !in st.fired ==> (KeyOf(e) in KeysOf(r.firedNow) <==> Due(now, e.at))
  {
    if ShouldRefresh(now, st.refresh) then
      if source.None? then TickResult(st, [])
      else
        var schedule := Built(source.value, today, Weekday(today), ishaPreExists);
        var p := Pass(schedule, st.fired * KeysOf(schedule), now);
        TickResult(EngineState(schedule, p.fired, Settle(Rebuilt(now, today), now)), p.firedNow)
    else
      var p := Pass(st.schedule, st.fired, now);
      TickResult(EngineState(st.schedule, p.fired, Settle(st.refresh, now)), p.firedNow)
  }

  /** With the fired set carried over, an event fired by one tick does not fire in the next, rebuild or not. */
  lemma StepOnceNeverRefires(st: EngineState, now1: int, today1: int, source1: Option<Times>, ishaPreExists1: bool,
                             now2: int, today2: int, source2: Option<Times>, ishaPreExists2: bool, e: Event)
    requires e in StepOnce(st, now1, today1, source1, ishaPreExists1).firedNow
    ensures var r1 := StepOnce(st, now1, today1, source1, ishaPreExists1);
      e !in StepOnce(r1.state, now2, today2, source2, ishaPreExists2).firedNow
  {
    var r1 := StepOnce(st, now1, today1, source1, ishaPreExists1);
    assert KeyOf(e) in KeysOf(r1.firedNow);
  }

  /**
   * The carried-over step differs from the source's only on a rebuild that
   * finds an already-fired key in the new schedule: otherwise the two agree.
   */
  lemma StepOnceAgrees(st: EngineState, now: int, today: int, source: Option<Times>, ishaPreExists: bool)
    requires ShouldRefresh(now, st.refresh) && source.Some? ==>
      st.fired !! KeysOf(Built(source.value, today, Weekday(today), ishaPreExists))
    ensures StepOnce(st, now, today, source, ishaPreExists) == Step(st, now, today, source, ishaPreExists)
  {
    if ShouldRefresh(now, st.refresh) && source.Some? {
      var schedule := Built(source.value, today, Weekday(today), ishaPreExists);
      assert st.fired * KeysOf(schedule) == {};
    }
  }

  lemma StepOnceKeepsGenerational(st: EngineState, now: int, today: int, source: Option<Times>, ishaPreExists: bool)
    requires Generational(st)
    ensures Generational(StepOnce(st, now, today, source, ishaPreExists).state)
  {
    var r := StepOnce(st, now, today, source, ishaPreExists);
    forall k | k in r.state.fired ensures exists e :: e in r.state.schedule && KeyOf(e) == k {
      if k in KeysOf(r.firedNow) {
        var e :| e in r.firedNow && KeyOf(e) == k;
      } else if r.state.schedule != st.schedule {
        assert k in KeysOf(r.state.schedule);
        var e :| e in r.state.schedule && KeyOf(e) == k;
      }
    }
  }

  /**
   * The `for` loop over the schedule: fires, in schedule order, every event
   * whose key is not yet in `fired` and whose trigger window holds `now`,
   * adding its key.
   */
  method FireDue(schedule: seq<Event>, fired: set<Key>, now: int) returns (firedNow: seq<Event>, fired': set<Key>)
    ensures PassResult(firedNow, fired') == Pass(schedule, fired, now)
  {
    firedNow, fired' := [], fired;
    for i := 0 to |schedule|
      invariant PassResult(firedNow, fired') == Pass(schedule[..i], fired, now)
    {
      var e := schedule[i];
      var key := KeyOf(e);
      assert schedule[..i + 1][..i] == schedule[..i];
      if key !in fired' {
        var diff := now - e.at;
        if 0 <= diff < TRIGGER_WINDOW_SEC {
          firedNow := firedNow + [e];
          fired' := fired' + {key};
        }
      }
    }
    assert schedule[..|schedule|] == schedule;
  }

  /** The daemon's state in `main`: the schedule, the fired set and the refresh bookkeeping. */
  class EventEngine {
    var schedule: seq<Event>
    var fired: set<Key>
    var lastRefreshDate: Option<int>
    var refreshedAfter2am: bool

    function State(): EngineState
      reads this
    {
      EngineState(schedule, fired, RefreshState(lastRefreshDate, refreshedAfter2am))
    }

    ghost predicate Valid()
      reads this
    {
      Generational(State())
    }

    constructor ()
      ensures Valid() && State() == START
    {
      schedule := [];
      fired := {};
      lastRefreshDate := None;
      refreshedAfter2am := false;
    }

    /**
     * One attempt of the start-up fetch loop: on success the day's schedule
     * and the refresh bookkeeping are set; on failure nothing changes and
     * the caller retries after 60 seconds.
     */
    method InitialFetch(now: int, source: Option<Times>, ishaPreExists: bool) returns (ok: bool)
      requires Valid() && fired == {}
      modifies this
      ensures Valid()
      ensures ok <==> source.Some?
      ensures ok ==> State() == EngineState(Built(source.value, Day(now), Weekday(Day(now)), ishaPreExists), {}, Rebuilt(now, Day(now)))
      ensures !ok ==> State() == old(State())
    {
      if source.None? {
        return false;
      }
      schedule := BuildTodaySchedule(source.value, Day(now), Weekday(Day(now)), ishaPreExists);
      lastRefreshDate := Some(Day(now));
      refreshedAfter2am := TimeOfDay(now) >= TWO_AM;
      ok := true;
    }

    /** One iteration of the polling loop; returns the events it fired, in schedule order. */
    method Tick(now: int, today: int, source: Option<Times>, ishaPreExists: bool) returns (firedNow: seq<Event>)
      requires Valid()
      modifies this
      ensures Valid()
      ensures State() == Step(old(State()), now, today, source, ishaPreExists).state
      ensures firedNow == Step(old(State()), now, today, source, ishaPreExists).firedNow
    {
      ghost var st := State();
      if ShouldRefresh(now, RefreshState(lastRefreshDate, refreshedAfter2am)) {
        if source.None? {
          // the refresh failed: back off, skip the rest of this iteration
          return [];
        }
        schedule := BuildTodaySchedule(source.value, today, Weekday(today), ishaPreExists);
        fired := {};
        lastRefreshDate := Some(today);
        refreshedAfter2am := TimeOfDay(now) >= TWO_AM;
      }
      firedNow, fired := FireDue(schedule, fired, now);
      // mark the post-02:00 check done once 02:00 has passed on the refresh date
      refreshedAfter2am := refreshedAfter2am || (TimeOfDay(now) >= TWO_AM && Some(Day(now)) == lastRefreshDate);
      StepKeepsGenerational(st, now, today, source, ishaPreExists);
      assert State() == Step(st, now, today, source, ishaPreExists).state;
    }

    /** `Tick` with the fired set carried across a rebuild, as `StepOnce` specifies. */
    method TickOnce(now: int, today: int, source: Option<Times>, ishaPreExists: bool) returns (firedNow: seq<Event>)
      requires Valid()
      modifies this
      ensures Valid()
      ensures State() == StepOnce(old(State()), now, today, source, ishaPreExists).state
      ensures firedNow == StepOnce(old(State()), now, today, source, ishaPreExists).firedNow
    {
      ghost var st := State();
      if ShouldRefresh(now, RefreshState(lastRefreshDate, refreshedAfter2am)) {
        if source.None? {
          return [];
        }
        schedule := BuildTodaySchedule(source.value, today, Weekday(today), ishaPreExists);
        fired := fired * KeysOf(schedule);
        lastRefreshDate := Some(today);
        refreshedAfter2am := TimeOfDay(now) >= TWO_AM;
      }
      firedNow, fired := FireDue(schedule, fired, now);
      refreshedAfter2am := refreshedAfter2am || (TimeOfDay(now) >= TWO_AM && Some(Day(now)) == lastRefreshDate);
      StepOnceKeepsGenerational(st, now, today, source, ishaPreExists);
      assert State() == StepOnce(st, now, today, source, ishaPreExists).state;
    }
  }
}
