/**
 * The prayer board web page: today's prayer times in `PRAYERS` order, the
 * current and the next prayer, and the countdown to the next one.
 */
module Board {
  import opened Wrappers
  import opened Clock
  import opened Sorting
  import Schedule

  /** One `(prayer, datetime)` item of the board's schedule dictionary. */
  datatype Entry = Entry(prayer: string, at: int)

  function EntryTime(e: Entry): int { e.at }

  /** Position of a prayer in `PRAYERS`; 5 for a name that is not there. */
  function Rank(p: string): (r: nat)
    ensures r < 5 <==> p in Schedule.PRAYERS
    ensures r < 5 ==> Schedule.PRAYERS[r] == p
  {
    if p == "Fajr" then 0
    else if p == "Dhuhr" then 1
    else if p == "Asr" then 2
    else if p == "Maghrib" then 3
    else if p == "Isha" then 4
    else 5
  }

  /** The entries `build_schedule` keeps for the prayers `ps`, in their order. */
  function BoardFor(ps: seq<string>, times: Schedule.Times, today: int): (r: seq<Entry>)
    ensures |r| <= |ps|
    ensures forall i :: 0 <= i < |r| ==> r[i].prayer in times && r[i].at == At(today, times[r[i].prayer])
  {
    if ps == [] then []
    else
      var p := ps[|ps| - 1];
      BoardFor(ps[..|ps| - 1], times, today) + (if p in times then [Entry(p, At(today, times[p]))] else [])
  }

  function Names(board: seq<Entry>): set<string> {
    set i | 0 <= i < |board| :: board[i].prayer
  }

  /** The entries kept from the first `k` prayers all rank below `k`, in increasing rank. */
  lemma {:induction false} BoardForRanks(k: nat, times: Schedule.Times, today: int)
    requires k <= 5
    ensures var b := BoardFor(Schedule.PRAYERS[..k], times, today);
      && (forall i :: 0 <= i < |b| ==> Rank(b[i].prayer) < k)
      && (forall i, j :: 0 <= i < j < |b| ==> Rank(b[i].prayer) < Rank(b[j].prayer))
      && (forall p :: p in Names(b) <==> p in Schedule.PRAYERS[..k] && p in times)
  {
    if k > 0 {
      var ps := Schedule.PRAYERS[..k];
      assert ps[..|ps| - 1] == Schedule.PRAYERS[..k - 1];
      BoardForRanks(k - 1, times, today);
      var p := Schedule.PRAYERS[k - 1];
      assert Rank(p) == k - 1;
      var front := BoardFor(Schedule.PRAYERS[..k - 1], times, today);
      var b := BoardFor(ps, times, today);
      assert b == front + (if p in times then [Entry(p, At(today, times[p]))] else []);
      assert forall i :: 0 <= i < |front| ==> b[i] == front[i];
      assert Schedule.PRAYERS[..k] == Schedule.PRAYERS[..k - 1] + [p];
      forall q
        ensures q in Names(b) <==> q in Schedule.PRAYERS[..k] && q in times
      {
        if q in Names(front) {
          var i :| 0 <= i < |front| && front[i].prayer == q;
          assert b[i].prayer == q;
        }
        if q == p && p in times {
          assert b[|b| - 1].prayer == q;
        }
      }
    }
  }

  /**
   * `build_schedule`: the prayers of `PRAYERS` present in the fetched times,
   * each at its time today, in `PRAYERS` order.
   */
  method BuildSchedule(times: Schedule.Times, today: int) returns (board: seq<Entry>)
    ensures board == BoardFor(Schedule.PRAYERS, times, today)
  {
    board := [];
    for i := 0 to |Schedule.PRAYERS|
      invariant board == BoardFor(Schedule.PRAYERS[..i], times, today)
    {
      var p := Schedule.PRAYERS[i];
      assert Schedule.PRAYERS[..i + 1][..i] == Schedule.PRAYERS[..i];
      if p in times {
        board := board + [Entry(p, At(today, times[p]))];
      }
    }
    assert Schedule.PRAYERS[..|Schedule.PRAYERS|] == Schedule.PRAYERS;
  }

  /**
   * The board holds exactly the prayers of `PRAYERS` that were fetched, once
   * each, in `PRAYERS` order, each at its fetched time today.
   */
  lemma BoardContents(times: Schedule.Times, today: int)
    ensures var b := BoardFor(Schedule.PRAYERS, times, today);
      && (forall p :: p in Names(b) <==> p in Schedule.PRAYERS && p in times)
      && (forall i, j :: 0 <= i < j < |b| ==> Rank(b[i].prayer) < Rank(b[j].prayer))
      && (forall i :: 0 <= i < |b| ==> b[i].prayer in times && b[i].at == At(today, times[b[i].prayer]))
  {
    BoardForRanks(5, times, today);
    assert Schedule.PRAYERS[..5] == Schedule.PRAYERS;
  }

  /** `sorted(schedule.items(), key=lambda x: x[1])`: the board in time order, ties in board order. */
  function Ordered(board: seq<Entry>): (o: seq<Entry>)
    ensures |o| == |board| && multiset(o) == multiset(board) && SortedBy(o, EntryTime)
  {
    SortBy(board, EntryTime)
  }

  /**
   * The loop of `get_current_and_next` over the time-ordered board `o`: the
   * last entry at or before `now` is current and the entry after it is next.
   * When `now` is before every entry, current is "Isha" (of the previous
   * night) and next is the earliest entry.  An empty board has no earliest
   * entry.
   */
  method SelectCurrent(o: seq<Entry>, now: int) returns (current: string, next: Option<Entry>)
    requires o != [] && SortedBy(o, EntryTime)
    ensures (forall i :: 0 <= i < |o| ==> now < o[i].at) ==> current == "Isha" && next == Some(o[0])
    ensures forall j :: 0 <= j < |o| && o[j].at <= now && (j + 1 == |o| || now < o[j + 1].at) ==>
      current == o[j].prayer && next == (if j + 1 < |o| then Some(o[j + 1]) else None)
  {
    var cur: Option<string> := None;
    next := None;
    ghost var last := -1;
    for i := 0 to |o|
      invariant -1 <= last < i
      invariant forall m :: last < m < i ==> now < o[m].at
      invariant last >= 0 ==> o[last].at <= now && cur == Some(o[last].prayer)
      invariant last >= 0 ==> next == (if last + 1 < |o| then Some(o[last + 1]) else None)
      invariant last < 0 ==> cur == None && next == (if i > 0 then Some(o[0]) else None)
    {
      var e := o[i];
      if now >= e.at {
        cur := Some(e.prayer);
        if i + 1 < |o| {
          next := Some(o[i + 1]);
        } else {
          next := None;
        }
        last := i;
      } else if now < e.at && next.None? {
        next := Some(e);
      }
    }
    assert cur.Some? ==> last >= 0 && o[last].at <= now;
    if cur.None? {
      current := "Isha";
      next := Some(o[0]);
    } else {
      current := cur.value;
    }
    forall j | 0 <= j < |o| && o[j].at <= now && (j + 1 == |o| || now < o[j + 1].at)
      ensures j == last
    {
      BoundaryIsLast(o, now, j, last);
    }
  }

  /** `get_current_and_next`: sort the board by time, then select. */
  method CurrentAndNext(board: seq<Entry>, now: int) returns (current: string, next: Option<Entry>)
    requires board != []
    ensures var o := Ordered(board);
      (forall i :: 0 <= i < |o| ==> now < o[i].at) ==> current == "Isha" && next == Some(o[0])
    ensures var o := Ordered(board);
      forall j :: 0 <= j < |o| && o[j].at <= now && (j + 1 == |o| || now < o[j + 1].at) ==>
        current == o[j].prayer && next == (if j + 1 < |o| then Some(o[j + 1]) else None)
  {
    var ordered := Ordered(board);
    current, next := SelectCurrent(ordered, now);
  }

  /**
   * In a time-ordered list, an entry at or before `now` whose successor (if
   * any) is after `now` is the last entry at or before `now`.
   */
  lemma BoundaryIsLast(o: seq<Entry>, now: int, j: int, last: int)
    requires SortedBy(o, EntryTime)
    requires 0 <= j < |o| && o[j].at <= now && (j + 1 == |o| || now < o[j + 1].at)
    requires -1 <= last < |o| && (last >= 0 ==> o[last].at <= now)
    requires forall m :: last < m < |o| ==> now < o[m].at
    ensures j == last
  {
    assert j <= last;
    assert j + 1 <= last ==> EntryTime(o[j + 1]) <= EntryTime(o[last]);
  }

  /**
   * Unless `now` is before every entry, some entry is at or before `now`
   * with no successor at or before `now`: the two cases of `CurrentAndNext`
   * cover every non-empty board.
   */
  lemma OneCaseApplies(o: seq<Entry>, now: int)
    ensures (exists i :: 0 <= i < |o| && o[i].at <= now) ==>
      exists j :: 0 <= j < |o| && o[j].at <= now && (j + 1 == |o| || now < o[j + 1].at)
  {
    if i :| 0 <= i < |o| && o[i].at <= now {
      var j := i;
      while j + 1 < |o| && o[j + 1].at <= now
        invariant i <= j < |o| && o[j].at <= now
        decreases |o| - j
      {
        j := j + 1;
      }
    }
  }

  /** `divmod(s, 3600)` then `divmod(remainder, 60)`: whole hours and minutes in `s` seconds. */
  function Countdown(s: int): (hm: (int, int))
    ensures 0 <= hm.1 < 60
    ensures hm.0 * 3600 + hm.1 * 60 <= s < hm.0 * 3600 + hm.1 * 60 + 60
  {
    (s / 3600, (s % 3600) / 60)
  }

  /** Decimal digits of `n`, most significant first, without leading zeros. */
  function Digits(n: nat): (r: string)
    ensures |r| >= 1 && forall i :: 0 <= i < |r| ==> '0' <= r[i] <= '9'
    ensures r[0] == '0' ==> n == 0
  {
    if n < 10 then [DigitChar(n)] else Digits(n / 10) + [DigitChar(n % 10)]
  }

  function DigitChar(d: nat): char
    requires d < 10
  {
    (d + '0' as int) as char
  }

  /** The number a string of decimal digits denotes. */
  function DigitsValue(s: string): int
    requires forall i :: 0 <= i < |s| ==> '0' <= s[i] <= '9'
  {
    if s == [] then 0 else DigitsValue(s[..|s| - 1]) * 10 + (s[|s| - 1] as int - '0' as int)
  }

  lemma {:induction false} DigitsRoundTrip(n: nat)
    ensures DigitsValue(Digits(n)) == n
    decreases n
  {
    if n >= 10 {
      DigitsRoundTrip(n / 10);
      var s := Digits(n);
      assert s[..|s| - 1] == Digits(n / 10);
    }
  }

  /** `f"{minutes:02d}"` for a minute count. */
  function TwoDigits(m: int): (r: string)
    requires 0 <= m < 60
    ensures |r| == 2 && (forall i :: 0 <= i < 2 ==> '0' <= r[i] <= '9') && DigitsValue(r) == m
  {
    var r := [DigitChar(m / 10), DigitChar(m % 10)];
    assert r[..1] == [DigitChar(m / 10)] && r[..1][..0] == [];
    assert DigitsValue(r[..1]) == m / 10;
    r
  }

  /** `f"{hours}"` for a possibly negative hour count. */
  function SignedDigits(h: int): (r: string)
    ensures |r| >= 1 && (r[0] == '-' <==> h < 0)
    ensures var mag := if h < 0 then r[1..] else r;
      && |mag| >= 1 && (forall i :: 0 <= i < |mag| ==> '0' <= mag[i] <= '9')
      && DigitsValue(mag) == (if h < 0 then -h else h)
  {
    DigitsRoundTrip(if h < 0 then -h else h);
    if h < 0 then
      var d := Digits(-h);
      assert ("-" + d)[1..] == d;
      "-" + d
    else
      Digits(h)
  }

  /**
   * The countdown text of the page: hours and two-digit minutes to the next
   * prayer, or "--:--" when there is no next prayer.
   */
  function TimeUntil(nextTime: Option<int>, now: int): (r: string)
    ensures r == "--:--" <==> nextTime.None?
    ensures nextTime.Some? ==> |r| >= 4 && r[|r| - 3] == ':' && '0' <= r[|r| - 1] <= '9'
  {
    match nextTime
    case None => "--:--"
    case Some(t) =>
      var hm := Countdown(t - now);
      SignedDigits(hm.0) + ":" + TwoDigits(hm.1)
  }

  /**
   * Reading the countdown back: for a next prayer not in the past, the text
   * is `H:MM` with H and MM the whole hours and remaining minutes until it;
   * with no next prayer it is the placeholder.
   */
  lemma TimeUntilReadsBack(nextTime: Option<int>, now: int)
    ensures nextTime.None? ==> TimeUntil(nextTime, now) == "--:--"
    ensures nextTime.Some? && now <= nextTime.value ==>
      var r := TimeUntil(nextTime, now);
      var s := nextTime.value - now;
      && |r| >= 4 && r[|r| - 3] == ':'
      && (forall i :: 0 <= i < |r| - 3 ==> '0' <= r[i] <= '9')
      && (forall i :: |r| - 2 <= i < |r| ==> '0' <= r[i] <= '9')
      && var h, m := DigitsValue(r[..|r| - 3]), DigitsValue(r[|r| - 2..]);
      && 0 <= m < 60 && h * 3600 + m * 60 <= s < h * 3600 + m * 60 + 60
  {
    if nextTime.Some? && now <= nextTime.value {
      var s := nextTime.value - now;
      var hm := Countdown(s);
      var r := TimeUntil(nextTime, now);
      var hs, ms := Digits(hm.0), TwoDigits(hm.1);
      assert r == hs + ":" + ms;
      assert r[..|r| - 3] == hs;
      assert r[|r| - 2..] == ms;
      DigitsRoundTrip(hm.0);
    }
  }
}
