/**
 * The schedule builder of the athan daemon: from the day's fetched prayer
 * times to the day's list of timed audio events, sorted by time.
 */
module Schedule {
  import opened Wrappers
  import opened Clock
  import opened Sorting

  /** The five daily prayers, in the order of the day. */
  const PRAYERS: seq<string> := ["Fajr", "Dhuhr", "Asr", "Maghrib", "Isha"]

  const SOUND_GENERAL := "./audio/athanfull.mp3"
  const SOUND_FAJR := "./audio/athanfullfajr.mp3"
  const SOUND_ISHA_PRE := "./audio/athkar_masaa.mp3"
  const SOUND_MORNING := "./audio/morning_athkar.mp3"
  const SOUND_KAHF := "./audio/alkahf.mp3"

  /** Lead times, in seconds, of the events placed before a prayer. */
  const QURAN_PRE_LEAD := 5 * 60
  /** `timedelta(seconds=19.45*60)`, which is 1167 seconds. */
  const ISHA_PRE_LEAD := 1167
  const KAHF_LEAD := 31 * 60
  /** The morning remembrance plays at 06:30 every day. */
  const MORNING_ATHKAR_AT: SecondOfDay := 6 * 3600 + 30 * 60

  /** "play": a whole audio file; "quran": a segment of the daily recitation. */
  datatype Kind = Play | Quran

  /** One `(label, datetime, kind, payload)` tuple of the schedule. */
  datatype Event = Event(name: string, at: int, kind: Kind, payload: Option<string>)

  /** The prayer times fetched for one day, by prayer name. */
  type Times = map<string, SecondOfDay>

  function EventTime(e: Event): int { e.at }

  /** The athan recording for a prayer: Fajr has its own. */
  function SoundFor(p: string): (r: string)
    ensures r == SOUND_FAJR <==> p == "Fajr"
    ensures r == SOUND_FAJR || r == SOUND_GENERAL
    ensures r != ""
  {
    if p == "Fajr" then SOUND_FAJR else SOUND_GENERAL
  }

  function QuranPreLabel(p: string): string { p + "-QuranPre" }

  /** The athan itself, at the prayer's time. */
  function PrayerCall(p: string, tod: SecondOfDay, today: int): Event {
    Event(p, At(today, tod), Play, Some(SoundFor(p)))
  }

  /** The recitation segment five minutes before a prayer. */
  function QuranPre(p: string, tod: SecondOfDay, today: int): Event {
    Event(QuranPreLabel(p), At(today, tod) - QURAN_PRE_LEAD, Quran, None)
  }

  /** Every prayer but Isha gets a recitation segment, and Asr not on Fridays. */
  predicate HasQuranPre(p: string, weekday: int) {
    p != "Isha" && !(p == "Asr" && weekday == FRIDAY)
  }

  function IshaPre(tod: SecondOfDay, today: int): Event {
    Event("Isha-Pre", At(today, tod) - ISHA_PRE_LEAD, Play, Some(SOUND_ISHA_PRE))
  }

  function MorningAthkar(today: int): Event {
    Event("Morning-Athkar", At(today, MORNING_ATHKAR_AT), Play, Some(SOUND_MORNING))
  }

  function KahfPreAsr(tod: SecondOfDay, today: int): Event {
    Event("Kahf-PreAsr", At(today, tod) - KAHF_LEAD, Play, Some(SOUND_KAHF))
  }

  /** What one pass of the loop over the prayers appends for prayer `p`. */
  function PrayerEvents(p: string, times: Times, today: int, weekday: int): seq<Event> {
    if p !in times then []
    else [PrayerCall(p, times[p], today)] + (if HasQuranPre(p, weekday) then [QuranPre(p, times[p], today)] else [])
  }

  /** What the loop over the prayers `ps` appends, in order. */
  function PrayerBlocks(ps: seq<string>, times: Times, today: int, weekday: int): seq<Event> {
    if ps == [] then []
    else PrayerBlocks(ps[..|ps| - 1], times, today, weekday) + PrayerEvents(ps[|ps| - 1], times, today, weekday)
  }

  /** The events appended after the loop: Isha-Pre, Morning-Athkar, Kahf-PreAsr. */
  function ExtraEvents(times: Times, today: int, weekday: int, ishaPreExists: bool): seq<Event> {
    (if "Isha" in times && ishaPreExists then [IshaPre(times["Isha"], today)] else [])
    + [MorningAthkar(today)]
    + (if weekday == FRIDAY && "Asr" in times then [KahfPreAsr(times["Asr"], today)] else [])
  }

  /** The schedule in emission order, before sorting. */
  function Emitted(times: Times, today: int, weekday: int, ishaPreExists: bool): (r: seq<Event>)
    ensures MorningAthkar(today) in r
  {
    PrayerBlocks(PRAYERS, times, today, weekday) + ExtraEvents(times, today, weekday, ishaPreExists)
  }

  /** The schedule as returned: the emitted events, stably sorted by time. */
  function Built(times: Times, today: int, weekday: int, ishaPreExists: bool): (r: seq<Event>)
    ensures SortedBy(r, EventTime)
    ensures multiset(r) == multiset(Emitted(times, today, weekday, ishaPreExists))
  {
    SortBy(Emitted(times, today, weekday, ishaPreExists), EventTime)
  }

  /**
   * `build_today_schedule`, given what the fetch returned, today's date, its
   * weekday and whether the Isha pre-file exists.
   */
  method BuildTodaySchedule(times: Times, today: int, weekday: int, ishaPreExists: bool)
    returns (schedule: seq<Event>)
    ensures schedule == Built(times, today, weekday, ishaPreExists)
  {
    schedule := [];
    for i := 0 to |PRAYERS|
      invariant schedule == PrayerBlocks(PRAYERS[..i], times, today, weekday)
    {
      var p := PRAYERS[i];
      assert PRAYERS[..i + 1][..i] == PRAYERS[..i];
      ghost var before := schedule;
      if p in times {
        var dtm := At(today, times[p]);
        schedule := schedule + [Event(p, dtm, Play, Some(SoundFor(p)))];
        if p != "Isha" && !(p == "Asr" && weekday == FRIDAY) {
          schedule := schedule + [Event(p + "-QuranPre", dtm - QURAN_PRE_LEAD, Quran, None)];
        }
      }
      assert schedule == before + PrayerEvents(p, times, today, weekday);
    }
    assert PRAYERS[..|PRAYERS|] == PRAYERS;
    ghost var blocks := schedule;
    ghost var isha: seq<Event> := if "Isha" in times && ishaPreExists then [IshaPre(times["Isha"], today)] else [];
    ghost var kahf: seq<Event> := if weekday == FRIDAY && "Asr" in times then [KahfPreAsr(times["Asr"], today)] else [];
    if "Isha" in times && ishaPreExists {
      schedule := schedule + [Event("Isha-Pre", At(today, times["Isha"]) - ISHA_PRE_LEAD, Play, Some(SOUND_ISHA_PRE))];
    }
    assert schedule == blocks + isha;
    schedule := schedule + [Event("Morning-Athkar", At(today, MORNING_ATHKAR_AT), Play, Some(SOUND_MORNING))];
    assert schedule == blocks + (isha + [MorningAthkar(today)]);
    if weekday == FRIDAY && "Asr" in times {
      schedule := schedule + [Event("Kahf-PreAsr", At(today, times["Asr"]) - KAHF_LEAD, Play, Some(SOUND_KAHF))];
    }
    assert schedule == blocks + (isha + [MorningAthkar(today)] + kahf);
    schedule := SortBy(schedule, EventTime);
  }

  // ----- What the built schedule contains -----

  /** No two events of `s` carry the same label. */
  predicate NamesUnique(s: seq<Event>) {
    forall i, j :: 0 <= i < j < |s| ==> s[i].name != s[j].name
  }

  /** Every label in `s` is one of `names`. */
  predicate NamesWithin(s: seq<Event>, names: set<string>) {
    forall i :: 0 <= i < |s| ==> s[i].name in names
  }

  /**
   * The rule for each label: which event, if any, a day's schedule holds
   * under that label.
   */
  ghost predicate Scheduled(e: Event, times: Times, today: int, weekday: int, ishaPreExists: bool) {
    if e.name in PRAYERS then
      e.name in times && e == PrayerCall(e.name, times[e.name], today)
    else if e.name == "Isha-Pre" then
      "Isha" in times && ishaPreExists && e == IshaPre(times["Isha"], today)
    else if e.name == "Morning-Athkar" then
      e == MorningAthkar(today)
    else if e.name == "Kahf-PreAsr" then
      weekday == FRIDAY && "Asr" in times && e == KahfPreAsr(times["Asr"], today)
    else
      exists p :: p in PRAYERS && e.name == QuranPreLabel(p) && p in times && HasQuranPre(p, weekday)
                  && e == QuranPre(p, times[p], today)
  }

  lemma UniqueConcat(a: seq<Event>, b: seq<Event>, na: set<string>, nb: set<string>)
    requires NamesUnique(a) && NamesWithin(a, na)
    requires NamesUnique(b) && NamesWithin(b, nb)
    requires na !! nb
    ensures NamesUnique(a + b) && NamesWithin(a + b, na + nb)
  {
    var ab := a + b;
    forall i, j | 0 <= i < j < |ab| ensures ab[i].name != ab[j].name {
      if j < |a| {
      } else if i >= |a| {
        assert ab[i] == b[i - |a|] && ab[j] == b[j - |a|];
      } else {
        assert ab[i] == a[i] && ab[j] == b[j - |a|];
        assert ab[i].name in na && ab[j].name in nb;
      }
    }
  }

  /** A QuranPre label names its prayer. */
  lemma QuranPreLabelInjective(p: string, q: string)
    ensures QuranPreLabel(p) == QuranPreLabel(q) <==> p == q
  {
    if QuranPreLabel(p) == QuranPreLabel(q) {
      assert |p| == |q|;
      assert p == QuranPreLabel(p)[..|p|];
      assert q == QuranPreLabel(q)[..|q|];
    }
  }

  lemma PrayerEventsNames(p: string, times: Times, today: int, weekday: int)
    ensures NamesUnique(PrayerEvents(p, times, today, weekday))
    ensures NamesWithin(PrayerEvents(p, times, today, weekday), {p, QuranPreLabel(p)})
  {
    assert |QuranPreLabel(p)| == |p| + 9;
  }

  /** The label of every QuranPre event, written out. */
  lemma QuranPreLabels()
    ensures QuranPreLabel("Fajr") == "Fajr-QuranPre" && QuranPreLabel("Dhuhr") == "Dhuhr-QuranPre"
    ensures QuranPreLabel("Asr") == "Asr-QuranPre" && QuranPreLabel("Maghrib") == "Maghrib-QuranPre"
    ensures QuranPreLabel("Isha") == "Isha-QuranPre"
  {
  }

  /** A QuranPre label is neither a prayer's label nor the label of a fixed extra event. */
  lemma QuranPreLabelIsOwn(p: string)
    requires p in PRAYERS
    ensures QuranPreLabel(p) !in PRAYERS
    ensures QuranPreLabel(p) !in {"Isha-Pre", "Morning-Athkar", "Kahf-PreAsr"}
  {
    QuranPreLabels();
  }

  /** The loop over the five prayers, written out. */
  lemma PrayerBlocksUnrolled(times: Times, today: int, weekday: int)
    ensures PrayerBlocks(PRAYERS, times, today, weekday)
         == PrayerEvents("Fajr", times, today, weekday) + PrayerEvents("Dhuhr", times, today, weekday)
          + PrayerEvents("Asr", times, today, weekday) + PrayerEvents("Maghrib", times, today, weekday)
          + PrayerEvents("Isha", times, today, weekday)
  {
    var p4: seq<string> := ["Fajr", "Dhuhr", "Asr", "Maghrib"];
    var p3: seq<string> := ["Fajr", "Dhuhr", "Asr"];
    var p2: seq<string> := ["Fajr", "Dhuhr"];
    var p1: seq<string> := ["Fajr"];
    assert PRAYERS[..4] == p4 && p4[..3] == p3 && p3[..2] == p2 && p2[..1] == p1 && p1[..0] == [];
    assert PrayerBlocks(p1, times, today, weekday) == PrayerEvents("Fajr", times, today, weekday);
    assert PrayerBlocks(p2, times, today, weekday) == PrayerBlocks(p1, times, today, weekday) + PrayerEvents("Dhuhr", times, today, weekday);
    assert PrayerBlocks(p3, times, today, weekday) == PrayerBlocks(p2, times, today, weekday) + PrayerEvents("Asr", times, today, weekday);
    assert PrayerBlocks(p4, times, today, weekday) == PrayerBlocks(p3, times, today, weekday) + PrayerEvents("Maghrib", times, today, weekday);
    assert PrayerBlocks(PRAYERS, times, today, weekday) == PrayerBlocks(p4, times, today, weekday) + PrayerEvents("Isha", times, today, weekday);
  }

  /** The labels the loop over the prayers can produce. */
  const PRAYER_LABELS: set<string> :=
    {"Fajr", "Fajr-QuranPre", "Dhuhr", "Dhuhr-QuranPre", "Asr", "Asr-QuranPre",
     "Maghrib", "Maghrib-QuranPre", "Isha", "Isha-QuranPre"}

  /** The events appended in the loop over the prayers carry pairwise distinct labels. */
  lemma PrayerBlocksNamesUnique(times: Times, today: int, weekday: int)
    ensures NamesUnique(PrayerBlocks(PRAYERS, times, today, weekday))
    ensures NamesWithin(PrayerBlocks(PRAYERS, times, today, weekday), PRAYER_LABELS)
  {
    PrayerBlocksUnrolled(times, today, weekday);
    QuranPreLabels();
    var f := PrayerEvents("Fajr", times, today, weekday);
    var d := PrayerEvents("Dhuhr", times, today, weekday);
    var a := PrayerEvents("Asr", times, today, weekday);
    var m := PrayerEvents("Maghrib", times, today, weekday);
    var i := PrayerEvents("Isha", times, today, weekday);
    PrayerEventsNames("Fajr", times, today, weekday);
    PrayerEventsNames("Dhuhr", times, today, weekday);
    PrayerEventsNames("Asr", times, today, weekday);
    PrayerEventsNames("Maghrib", times, today, weekday);
    PrayerEventsNames("Isha", times, today, weekday);
    var nf: set<string> := {"Fajr", "Fajr-QuranPre"};
    var nd: set<string> := {"Dhuhr", "Dhuhr-QuranPre"};
    var na: set<string> := {"Asr", "Asr-QuranPre"};
    var nm: set<string> := {"Maghrib", "Maghrib-QuranPre"};
    var ni: set<string> := {"Isha", "Isha-QuranPre"};
    assert nf !! nd;
    UniqueConcat(f, d, nf, nd);
    assert (nf + nd) !! na;
    UniqueConcat(f + d, a, nf + nd, na);
    assert (nf + nd + na) !! nm;
    UniqueConcat(f + d + a, m, nf + nd + na, nm);
    assert (nf + nd + na + nm) !! ni;
    UniqueConcat(f + d + a + m, i, nf + nd + na + nm, ni);
    assert nf + nd + na + nm + ni == PRAYER_LABELS;
  }

  /** The emitted events carry pairwise distinct labels. */
  lemma EmittedNamesUnique(times: Times, today: int, weekday: int, ishaPreExists: bool)
    ensures NamesUnique(Emitted(times, today, weekday, ishaPreExists))
  {
    var x := ExtraEvents(times, today, weekday, ishaPreExists);
    var nx: set<string> := {"Isha-Pre", "Morning-Athkar", "Kahf-PreAsr"};
    assert NamesUnique(x) && NamesWithin(x, nx);
    assert PRAYER_LABELS !! nx;
    PrayerBlocksNamesUnique(times, today, weekday);
    UniqueConcat(PrayerBlocks(PRAYERS, times, today, weekday), x, PRAYER_LABELS, nx);
  }

  /** Each event the loop appends for a prayer is one its label's rule calls for. */
  lemma PrayerEventsScheduled(p: string, times: Times, today: int, weekday: int, ishaPreExists: bool, e: Event)
    requires p in PRAYERS && e in PrayerEvents(p, times, today, weekday)
    ensures Scheduled(e, times, today, weekday, ishaPreExists)
  {
    if e.name != p {
      QuranPreLabelIsOwn(p);
      assert e == QuranPre(p, times[p], today);
    }
  }

  /** Each event appended after the loop is one its label's rule calls for. */
  lemma ExtraScheduled(times: Times, today: int, weekday: int, ishaPreExists: bool, e: Event)
    requires e in ExtraEvents(times, today, weekday, ishaPreExists)
    ensures Scheduled(e, times, today, weekday, ishaPreExists)
  {
  }

  /** Each event the loop appends comes from the pass for one prayer. */
  lemma PrayerBlocksMember(times: Times, today: int, weekday: int, e: Event)
    requires e in PrayerBlocks(PRAYERS, times, today, weekday)
    ensures exists p :: p in PRAYERS && e in PrayerEvents(p, times, today, weekday)
  {
    PrayerBlocksUnrolled(times, today, weekday);
    var f := PrayerEvents("Fajr", times, today, weekday);
    var d := PrayerEvents("Dhuhr", times, today, weekday);
    var a := PrayerEvents("Asr", times, today, weekday);
    var m := PrayerEvents("Maghrib", times, today, weekday);
    var i := PrayerEvents("Isha", times, today, weekday);
    assert e in f || e in d || e in a || e in m || e in i;
  }

  /** Every emitted event is one the rule for its label calls for. */
  lemma EmittedAreScheduled(times: Times, today: int, weekday: int, ishaPreExists: bool, e: Event)
    requires e in Emitted(times, today, weekday, ishaPreExists)
    ensures Scheduled(e, times, today, weekday, ishaPreExists)
  {
    var blocks := PrayerBlocks(PRAYERS, times, today, weekday);
    var x := ExtraEvents(times, today, weekday, ishaPreExists);
    if e in x {
      ExtraScheduled(times, today, weekday, ishaPreExists, e);
    } else {
      assert e in blocks;
      PrayerBlocksMember(times, today, weekday, e);
      var p :| p in PRAYERS && e in PrayerEvents(p, times, today, weekday);
      PrayerEventsScheduled(p, times, today, weekday, ishaPreExists, e);
    }
  }

  /** What the pass for any prayer appends is emitted. */
  lemma PrayerEventEmitted(p: string, times: Times, today: int, weekday: int, e: Event)
    requires p in PRAYERS && e in PrayerEvents(p, times, today, weekday)
    ensures e in PrayerBlocks(PRAYERS, times, today, weekday)
  {
    PrayerBlocksUnrolled(times, today, weekday);
  }

  /** Every event the rules call for is emitted. */
  lemma ScheduledAreEmitted(times: Times, today: int, weekday: int, ishaPreExists: bool, e: Event)
    requires Scheduled(e, times, today, weekday, ishaPreExists)
    ensures e in Emitted(times, today, weekday, ishaPreExists)
  {
    var blocks := PrayerBlocks(PRAYERS, times, today, weekday);
    var x := ExtraEvents(times, today, weekday, ishaPreExists);
    if e.name in PRAYERS {
      assert e == PrayerEvents(e.name, times, today, weekday)[0];
      PrayerEventEmitted(e.name, times, today, weekday, e);
      assert e in blocks;
    } else if e.name == "Isha-Pre" || e.name == "Morning-Athkar" || e.name == "Kahf-PreAsr" {
      assert e in x;
    } else {
      var p :| p in PRAYERS && e.name == QuranPreLabel(p) && p in times && HasQuranPre(p, weekday)
               && e == QuranPre(p, times[p], today);
      assert e in PrayerEvents(p, times, today, weekday);
      PrayerEventEmitted(p, times, today, weekday, e);
      assert e in blocks;
    }
  }

  /** An event is emitted exactly when the rule for its label calls for it. */
  lemma EmittedMatchesRules(times: Times, today: int, weekday: int, ishaPreExists: bool, e: Event)
    ensures e in Emitted(times, today, weekday, ishaPreExists) <==> Scheduled(e, times, today, weekday, ishaPreExists)
  {
    if e in Emitted(times, today, weekday, ishaPreExists) {
      EmittedAreScheduled(times, today, weekday, ishaPreExists, e);
    }
    if Scheduled(e, times, today, weekday, ishaPreExists) {
      ScheduledAreEmitted(times, today, weekday, ishaPreExists, e);
    }
  }

  lemma SameNameSameIndex(s: seq<Event>, i: int, j: int)
    requires NamesUnique(s) && 0 <= i < |s| && 0 <= j < |s| && s[i].name == s[j].name
    ensures i == j
  {
  }

  /** A sequence with distinct labels holds no event twice. */
  lemma {:induction false} UniqueCount(s: seq<Event>, e: Event)
    requires NamesUnique(s)
    ensures multiset(s)[e] == if e in s then 1 else 0
  {
    if s != [] {
      assert s == [s[0]] + s[1..];
      assert NamesUnique(s[1..]) by {
        forall i, j | 0 <= i < j < |s[1..]| ensures s[1..][i].name != s[1..][j].name {
          assert s[1..][i] == s[i + 1] && s[1..][j] == s[j + 1];
        }
      }
      UniqueCount(s[1..], e);
      if e == s[0] {
        forall k | 0 <= k < |s[1..]| ensures s[1..][k] != e {
          assert s[1..][k] == s[k + 1];
        }
      }
    }
  }

  /**
   * The built schedule is in ascending order of time, holds the emitted
   * events (a permutation of them), and events at the same time keep the
   * order in which they were emitted.
   */
  lemma BuiltOrder(times: Times, today: int, weekday: int, ishaPreExists: bool)
    ensures SortedBy(Built(times, today, weekday, ishaPreExists), EventTime)
    ensures multiset(Built(times, today, weekday, ishaPreExists)) == multiset(Emitted(times, today, weekday, ishaPreExists))
    ensures forall t :: WithKey(Built(times, today, weekday, ishaPreExists), EventTime, t)
                     == WithKey(Emitted(times, today, weekday, ishaPreExists), EventTime, t)
  {
    var e := Emitted(times, today, weekday, ishaPreExists);
    forall t ensures WithKey(SortBy(e, EventTime), EventTime, t) == WithKey(e, EventTime, t) {
      SortByStable(e, EventTime, t);
    }
  }

  /** One event is in the built schedule exactly when the rules call for it, and then once. */
  lemma BuiltEvent(times: Times, today: int, weekday: int, ishaPreExists: bool, e: Event)
    ensures e in Built(times, today, weekday, ishaPreExists) <==> Scheduled(e, times, today, weekday, ishaPreExists)
    ensures multiset(Built(times, today, weekday, ishaPreExists))[e] == if Scheduled(e, times, today, weekday, ishaPreExists) then 1 else 0
  {
    var em := Emitted(times, today, weekday, ishaPreExists);
    var b := Built(times, today, weekday, ishaPreExists);
    assert multiset(b) == multiset(em);
    assert e in b <==> e in multiset(b);
    assert e in em <==> e in multiset(em);
    EmittedNamesUnique(times, today, weekday, ishaPreExists);
    UniqueCount(em, e);
    EmittedMatchesRules(times, today, weekday, ishaPreExists, e);
  }

  /** Two events of the built schedule with the same label are the same event. */
  lemma BuiltLabelsDistinct(times: Times, today: int, weekday: int, ishaPreExists: bool, e1: Event, e2: Event)
    requires e1 in Built(times, today, weekday, ishaPreExists) && e2 in Built(times, today, weekday, ishaPreExists)
    requires e1.name == e2.name
    ensures e1 == e2
  {
    var em := Emitted(times, today, weekday, ishaPreExists);
    var b := Built(times, today, weekday, ishaPreExists);
    assert multiset(b) == multiset(em);
    assert e1 in multiset(b) && e2 in multiset(b);
    assert e1 in em && e2 in em;
    EmittedNamesUnique(times, today, weekday, ishaPreExists);
    var i :| 0 <= i < |em| && em[i] == e1;
    var j :| 0 <= j < |em| && em[j] == e2;
    SameNameSameIndex(em, i, j);
  }

  /**
   * The built schedule holds exactly the events the rules call for, each
   * once, and no two of its events share a label.
   */
  lemma BuiltContents(times: Times, today: int, weekday: int, ishaPreExists: bool)
    ensures forall e :: e in Built(times, today, weekday, ishaPreExists) <==> Scheduled(e, times, today, weekday, ishaPreExists)
    ensures forall e :: multiset(Built(times, today, weekday, ishaPreExists))[e] == if Scheduled(e, times, today, weekday, ishaPreExists) then 1 else 0
    ensures forall e1, e2 ::
              (e1 in Built(times, today, weekday, ishaPreExists) && e2 in Built(times, today, weekday, ishaPreExists)
               && e1.name == e2.name) ==> e1 == e2
  {
    forall e
      ensures e in Built(times, today, weekday, ishaPreExists) <==> Scheduled(e, times, today, weekday, ishaPreExists)
      ensures multiset(Built(times, today, weekday, ishaPreExists))[e] == if Scheduled(e, times, today, weekday, ishaPreExists) then 1 else 0
    {
      BuiltEvent(times, today, weekday, ishaPreExists, e);
    }
    forall e1, e2 |
      e1 in Built(times, today, weekday, ishaPreExists) && e2 in Built(times, today, weekday, ishaPreExists) && e1.name == e2.name
      ensures e1 == e2
    {
      BuiltLabelsDistinct(times, today, weekday, ishaPreExists, e1, e2);
    }
  }

  /**
   * Each prayer present in the fetched times gets one athan event at its
   * time, playing the Fajr file for Fajr and the general file otherwise;
   * an absent prayer gets none.
   */
  lemma PrayerCallRule(times: Times, today: int, weekday: int, ishaPreExists: bool, p: string)
    requires p in PRAYERS
    ensures (exists e :: e in Built(times, today, weekday, ishaPreExists) && e.name == p) <==> p in times
    ensures forall e :: e in Built(times, today, weekday, ishaPreExists) && e.name == p ==>
              e.at == At(today, times[p]) && e.kind == Play && e.payload == Some(SoundFor(p))
    ensures p in times ==> multiset(Built(times, today, weekday, ishaPreExists))[PrayerCall(p, times[p], today)] == 1
  {
    BuiltContents(times, today, weekday, ishaPreExists);
    if p in times {
      assert Scheduled(PrayerCall(p, times[p], today), times, today, weekday, ishaPreExists);
    }
  }

  /**
   * A recitation segment with no payload is scheduled five minutes before
   * every present prayer except Isha, and except Asr on a Friday.
   */
  lemma QuranPreRule(times: Times, today: int, weekday: int, ishaPreExists: bool, p: string)
    requires p in PRAYERS
    ensures (exists e :: e in Built(times, today, weekday, ishaPreExists) && e.name == QuranPreLabel(p))
            <==> p in times && p != "Isha" && !(p == "Asr" && weekday == FRIDAY)
    ensures forall e :: e in Built(times, today, weekday, ishaPreExists) && e.name == QuranPreLabel(p) ==>
              e.at == At(today, times[p]) - 300 && e.kind == Quran && e.payload == None
  {
    BuiltContents(times, today, weekday, ishaPreExists);
    QuranPreLabelIsOwn(p);
    var b := Built(times, today, weekday, ishaPreExists);
    forall e | e in b && e.name == QuranPreLabel(p)
      ensures p in times && HasQuranPre(p, weekday) && e == QuranPre(p, times[p], today)
    {
      var q :| q in PRAYERS && e.name == QuranPreLabel(q) && q in times && HasQuranPre(q, weekday)
               && e == QuranPre(q, times[q], today);
      QuranPreLabelInjective(p, q);
    }
    if p in times && HasQuranPre(p, weekday) {
      assert Scheduled(QuranPre(p, times[p], today), times, today, weekday, ishaPreExists);
    }
  }

  /** The labels of the fixed extra events are neither prayers' labels nor QuranPre labels, and differ from each other. */
  lemma ExtraLabelsAreOwn()
    ensures "Isha-Pre" !in PRAYERS && "Morning-Athkar" !in PRAYERS && "Kahf-PreAsr" !in PRAYERS
    ensures "Isha-Pre" != "Morning-Athkar" && "Kahf-PreAsr" != "Morning-Athkar" && "Kahf-PreAsr" != "Isha-Pre"
    ensures forall p :: p in PRAYERS ==> QuranPreLabel(p) !in {"Isha-Pre", "Morning-Athkar", "Kahf-PreAsr"}
  {
    forall p | p in PRAYERS
      ensures QuranPreLabel(p) !in {"Isha-Pre", "Morning-Athkar", "Kahf-PreAsr"}
    {
      QuranPreLabelIsOwn(p);
    }
  }

  /** Isha-Pre plays 1167 s before Isha, when Isha is known and its file exists. */
  lemma IshaPreRule(times: Times, today: int, weekday: int, ishaPreExists: bool)
    ensures (exists e :: e in Built(times, today, weekday, ishaPreExists) && e.name == "Isha-Pre")
            <==> "Isha" in times && ishaPreExists
    ensures forall e :: e in Built(times, today, weekday, ishaPreExists) && e.name == "Isha-Pre" ==>
              e.at == At(today, times["Isha"]) - 1167 && e.kind == Play && e.payload == Some(SOUND_ISHA_PRE)
  {
    BuiltContents(times, today, weekday, ishaPreExists);
    ExtraLabelsAreOwn();
    var b := Built(times, today, weekday, ishaPreExists);
    forall e | e in b && e.name == "Isha-Pre"
      ensures "Isha" in times && ishaPreExists && e == IshaPre(times["Isha"], today)
    {
      assert Scheduled(e, times, today, weekday, ishaPreExists);
    }
    if "Isha" in times && ishaPreExists {
      assert Scheduled(IshaPre(times["Isha"], today), times, today, weekday, ishaPreExists);
    }
  }

  /** Morning-Athkar plays at 06:30 every day, whatever was fetched. */
  lemma MorningAthkarRule(times: Times, today: int, weekday: int, ishaPreExists: bool)
    ensures Event("Morning-Athkar", At(today, 6 * 3600 + 30 * 60), Play, Some(SOUND_MORNING))
            in Built(times, today, weekday, ishaPreExists)
    ensures forall e :: e in Built(times, today, weekday, ishaPreExists) && e.name == "Morning-Athkar" ==>
              e == MorningAthkar(today)
  {
    BuiltContents(times, today, weekday, ishaPreExists);
    ExtraLabelsAreOwn();
    assert Scheduled(MorningAthkar(today), times, today, weekday, ishaPreExists);
  }

  /** On a Friday with Asr known, Kahf-PreAsr plays 31 minutes before Asr; on no other day. */
  lemma KahfPreAsrRule(times: Times, today: int, weekday: int, ishaPreExists: bool)
    ensures (exists e :: e in Built(times, today, weekday, ishaPreExists) && e.name == "Kahf-PreAsr")
            <==> weekday == FRIDAY && "Asr" in times
    ensures forall e :: e in Built(times, today, weekday, ishaPreExists) && e.name == "Kahf-PreAsr" ==>
              e.at == At(today, times["Asr"]) - 31 * 60 && e.kind == Play && e.payload == Some(SOUND_KAHF)
  {
    BuiltContents(times, today, weekday, ishaPreExists);
    ExtraLabelsAreOwn();
    var b := Built(times, today, weekday, ishaPreExists);
    forall e | e in b && e.name == "Kahf-PreAsr"
      ensures weekday == FRIDAY && "Asr" in times && e == KahfPreAsr(times["Asr"], today)
    {
      assert Scheduled(e, times, today, weekday, ishaPreExists);
    }
    if weekday == FRIDAY && "Asr" in times {
      assert Scheduled(KahfPreAsr(times["Asr"], today), times, today, weekday, ishaPreExists);
    }
  }
}
