/**
 * When the daemon rebuilds the day's schedule: at start, on a new date,
 * and once more on the first poll at or after 02:00.
 */
module Refresh {
  import opened Wrappers
  import opened Clock

  /** `last_refresh_date` (None before the first build) and `refreshed_after_2am`. */
  datatype RefreshState = RefreshState(lastRefreshDate: Option<int>, refreshedAfter2am: bool)

  /** The state before the first build. */
  const INITIAL := RefreshState(None, false)

  /**
   * `should_refresh`.  No refresh is due exactly when today's schedule is
   * loaded and either the post-02:00 rebuild has happened or it is not yet
   * 02:00.
   */
  function ShouldRefresh(now: int, st: RefreshState): (r: bool)
    ensures !r <==> st.lastRefreshDate == Some(Day(now)) && (st.refreshedAfter2am || TimeOfDay(now) < TWO_AM)
  {
    if st.lastRefreshDate.None? then true
    else if Day(now) != st.lastRefreshDate.value then true
    else if !st.refreshedAfter2am && TimeOfDay(now) >= TWO_AM then true
    else false
  }

  /**
   * The bookkeeping of a successful build in the tick that started at `now`:
   * the date is `today`, read after the fetch returned, while the post-02:00
   * flag comes from `now`, read before it.  The refresh is then settled for
   * `now` exactly when both readings fall on the same date.
   */
  function Rebuilt(now: int, today: int): (st: RefreshState)
    ensures !ShouldRefresh(now, st) <==> today == Day(now)
  {
    RefreshState(Some(today), TimeOfDay(now) >= TWO_AM)
  }

  /**
   * The end-of-tick update: mark the post-02:00 check done once 02:00 has
   * passed on the refresh date.  It keeps the date, never clears the flag,
   * raises it only at or after 02:00, and leaves no refresh due at `now` on
   * the refresh date.
   */
  function Settle(st: RefreshState, now: int): (r: RefreshState)
    ensures r.lastRefreshDate == st.lastRefreshDate
    ensures st.refreshedAfter2am ==> r == st
    ensures r.refreshedAfter2am && !st.refreshedAfter2am ==> TimeOfDay(now) >= TWO_AM
    ensures st.lastRefreshDate == Some(Day(now)) ==> !ShouldRefresh(now, r)
  {
    if !st.refreshedAfter2am && TimeOfDay(now) >= TWO_AM && Some(Day(now)) == st.lastRefreshDate
    then st.(refreshedAfter2am := true)
    else st
  }

  /**
   * The state after one poll at `now`, when any rebuild it asks for succeeds
   * and the fetch ends on the date it started: today's schedule is then
   * loaded and no further refresh is due at `now`.
   */
  function Poll(st: RefreshState, now: int): (r: RefreshState)
    ensures r.lastRefreshDate == Some(Day(now)) || r == st
    ensures !ShouldRefresh(now, r)
  {
    if ShouldRefresh(now, st) then Settle(Rebuilt(now, Day(now)), now) else Settle(st, now)
  }

  /** How many rebuilds a run of polls performs, when every rebuild succeeds. */
  function RebuildCount(st: RefreshState, polls: seq<int>): (n: nat)
    ensures n <= |polls|
    decreases |polls|
  {
    if polls == [] then 0
    else (if ShouldRefresh(polls[0], st) then 1 else 0) + RebuildCount(Poll(st, polls[0]), polls[1..])
  }

  /**
   * The end-of-tick update never changes anything: after a successful
   * rebuild, or on a poll that needed none, the post-02:00 flag is already
   * what it would set.
   */
  lemma SettleIsRedundant(st: RefreshState, now: int, today: int)
    ensures Settle(Rebuilt(now, today), now) == Rebuilt(now, today)
    ensures !ShouldRefresh(now, st) ==> Settle(st, now) == st
  {
  }

  /** Once the post-02:00 rebuild has happened, no poll on that date rebuilds again. */
  lemma {:induction false} NoRebuildAfterSettled(d: int, polls: seq<int>)
    requires forall i :: 0 <= i < |polls| ==> Day(polls[i]) == d
    ensures RebuildCount(RefreshState(Some(d), true), polls) == 0
  {
    if polls != [] {
      NoRebuildAfterSettled(d, polls[1..]);
    }
  }

  /**
   * Polling through one day after that day's first build, however often,
   * rebuilds exactly once if some poll is at or after 02:00, and never
   * otherwise.
   */
  lemma {:induction false} OneRebuildPastTwo(d: int, polls: seq<int>)
    requires forall i :: 0 <= i < |polls| ==> Day(polls[i]) == d
    ensures RebuildCount(RefreshState(Some(d), false), polls)
            == if exists i :: 0 <= i < |polls| && TimeOfDay(polls[i]) >= TWO_AM then 1 else 0
  {
    if polls != [] {
      var now := polls[0];
      if TimeOfDay(now) >= TWO_AM {
        assert Poll(RefreshState(Some(d), false), now) == RefreshState(Some(d), true);
        NoRebuildAfterSettled(d, polls[1..]);
      } else {
        OneRebuildPastTwo(d, polls[1..]);
        if exists i :: 0 <= i < |polls| && TimeOfDay(polls[i]) >= TWO_AM {
          var i :| 0 <= i < |polls| && TimeOfDay(polls[i]) >= TWO_AM;
          assert polls[1..][i - 1] == polls[i];
        }
      }
    }
  }

  /**
   * A rebuild due just before midnight whose fetch returns after it records
   * the next date with the post-02:00 flag already set, taken from the
   * earlier reading: that next date then gets no rebuild at all, not even
   * after 02:00.
   */
  lemma MidnightStraddle(now: int, polls: seq<int>)
    requires TimeOfDay(now) >= TWO_AM
    requires forall i :: 0 <= i < |polls| ==> Day(polls[i]) == Day(now) + 1
    ensures Settle(Rebuilt(now, Day(now) + 1), now) == RefreshState(Some(Day(now) + 1), true)
    ensures RebuildCount(Settle(Rebuilt(now, Day(now) + 1), now), polls) == 0
  {
    NoRebuildAfterSettled(Day(now) + 1, polls);
  }
}
