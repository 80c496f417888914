/**
 * Accumulations over the selected intervals: the daily summary, the daily
 * leaderboard and the rows of the period reports.
 */
module Aggregation {
  import opened Wrappers
  import opened Calendar
  import opened TimeFormat
  import opened Windows
  import opened Rows
  import opened Sorting

  /** The break types of `BREAK_LIMITS`, the keys of the summary's `counts` and `durations`. */
  const Meal := "meal"
  const ToiletSmall := "toilet_small"
  const ToiletBig := "toilet_big"
  const Smoke := "smoke"

  predicate IsKnownType(t: BreakType) {
    t == Meal || t == ToiletSmall || t == ToiletBig || t == Smoke
  }

  /**
   * The minutes one row counts for: up to its own end, or up to `openUntil`
   * while it is open (`e or now_utc()` in the daily figures, `pe or end_utc`
   * in the reports). Never clipped to the query window.
   */
  function Elapsed<K>(r: Row<K>, openUntil: Instant): nat {
    MinutesBetween(Some(r.start), Some(r.end.GetOr(openUntil)))
  }

  /** `sum(minutes_between(s, e or open_until) for ...)` over the rows. */
  function TotalMinutes<K>(rows: seq<Row<K>>, openUntil: Instant): nat {
    if rows == [] then 0
    else TotalMinutes(rows[..|rows| - 1], openUntil) + Elapsed(rows[|rows| - 1], openUntil)
  }

  function CountOfType(rows: seq<BreakRow>, t: BreakType): nat {
    if rows == [] then 0
    else CountOfType(rows[..|rows| - 1], t) + (if rows[|rows| - 1].kind == t then 1 else 0)
  }

  function MinutesOfType(rows: seq<BreakRow>, t: BreakType, openUntil: Instant): nat {
    if rows == [] then 0
    else
      var last := if rows[|rows| - 1].kind == t then Elapsed(rows[|rows| - 1], openUntil) else 0;
      MinutesOfType(rows[..|rows| - 1], t, openUntil) + last
  }

  /** Breaks of one of the four known types. */
  function CountKnown(rows: seq<BreakRow>): nat {
    if rows == [] then 0
    else CountKnown(rows[..|rows| - 1]) + (if IsKnownType(rows[|rows| - 1].kind) then 1 else 0)
  }

  function MinutesKnown(rows: seq<BreakRow>, openUntil: Instant): nat {
    if rows == [] then 0
    else
      var last := if IsKnownType(rows[|rows| - 1].kind) then Elapsed(rows[|rows| - 1], openUntil) else 0;
      MinutesKnown(rows[..|rows| - 1], openUntil) + last
  }

  /** The known-type breaks are the sum of the four per-type counts, and at most all breaks. */
  lemma {:induction false} CountKnownIsSum(rows: seq<BreakRow>)
    ensures CountKnown(rows)
      == CountOfType(rows, Meal) + CountOfType(rows, ToiletSmall) + CountOfType(rows, ToiletBig) + CountOfType(rows, Smoke)
    ensures CountKnown(rows) <= |rows|
    ensures CountKnown(rows) == |rows| <==> forall i :: 0 <= i < |rows| ==> IsKnownType(rows[i].kind)
  {
    if rows != [] {
      var prefix := rows[..|rows| - 1];
      CountKnownIsSum(prefix);
      assert forall i :: 0 <= i < |prefix| ==> prefix[i] == rows[i];
    }
  }

  /**
   * The known-type minutes are the sum of the four per-type durations; a
   * break of another type adds to the total break time only.
   */
  lemma {:induction false} MinutesKnownIsSum(rows: seq<BreakRow>, openUntil: Instant)
    ensures MinutesKnown(rows, openUntil)
      == MinutesOfType(rows, Meal, openUntil) + MinutesOfType(rows, ToiletSmall, openUntil)
       + MinutesOfType(rows, ToiletBig, openUntil) + MinutesOfType(rows, Smoke, openUntil)
    ensures MinutesKnown(rows, openUntil) <= TotalMinutes(rows, openUntil)
    ensures (forall i :: 0 <= i < |rows| ==> IsKnownType(rows[i].kind)) ==>
      MinutesKnown(rows, openUntil) == TotalMinutes(rows, openUntil)
  {
    if rows != [] {
      var prefix := rows[..|rows| - 1];
      MinutesKnownIsSum(prefix, openUntil);
      assert forall i :: 0 <= i < |prefix| ==> prefix[i] == rows[i];
    }
  }

  /** A break of a type outside the four adds to the total break time and to no count. */
  lemma UnknownTypeOnlyInTotal(rows: seq<BreakRow>, r: BreakRow, openUntil: Instant)
    requires !IsKnownType(r.kind)
    ensures CountKnown(rows + [r]) == CountKnown(rows)
    ensures MinutesKnown(rows + [r], openUntil) == MinutesKnown(rows, openUntil)
    ensures TotalMinutes(rows + [r], openUntil) == TotalMinutes(rows, openUntil) + Elapsed(r, openUntil)
    ensures forall t :: IsKnownType(t) ==> CountOfType(rows + [r], t) == CountOfType(rows, t)
  {
    assert (rows + [r])[..|rows|] == rows;
  }

  /**
   * Durations are not clipped to the window: a row that crosses local
   * midnight is selected for both days and counts its whole length in each.
   */
  lemma CrossingRowCountedTwice<K>(r: Row<K>, n: int, openUntil: Instant)
    requires r.end.Some?
    requires Contains(DayWindowAt(n), r.start) && Contains(DayWindowAt(n + 1), r.end.value)
    ensures Selected(r, r.user, r.chat, DayWindowAt(n)) && Selected(r, r.user, r.chat, DayWindowAt(n + 1))
    ensures Elapsed(r, openUntil) == MinutesBetween(Some(r.start), r.end)
    ensures Elapsed(r, openUntil) * 60 <= r.end.value - r.start
  {
  }

  /** Extending a prefix by one row, for the loops. */
  lemma PrefixStep<K>(rows: seq<Row<K>>, i: nat)
    requires i < |rows|
    ensures rows[..i + 1][..i] == rows[..i] && rows[..i + 1][i] == rows[i]
  {
  }

  /** `[f(x) for x in xs]`. */
  function MapSeq<A, B>(xs: seq<A>, f: A -> B): (ys: seq<B>)
    ensures |ys| == |xs|
    ensures forall i :: 0 <= i < |xs| ==> ys[i] == f(xs[i])
  {
    if xs == [] then []
    else
      var prefix := xs[..|xs| - 1];
      var rest := MapSeq(prefix, f);
      assert forall i :: 0 <= i < |prefix| ==> prefix[i] == xs[i];
      rest + [f(xs[|xs| - 1])]
  }

  lemma MapSeqStep<A, B>(xs: seq<A>, i: nat, f: A -> B)
    requires i < |xs|
    ensures MapSeq(xs[..i + 1], f) == MapSeq(xs[..i], f) + [f(xs[i])]
  {
    assert xs[..i + 1][..i] == xs[..i];
  }

  // ---------------------------------------------------------------------
  // Daily summary (`compute_daily_summary`)
  // ---------------------------------------------------------------------

  datatype Summary = Summary(
    totalWork: nat,
    totalBreak: nat,
    counts: map<BreakType, nat>,
    durations: map<BreakType, nat>,
    totalLeaveTimes: nat,
    totalLeaveMinutes: nat)

  /** The work and break rows of one person's local day, `get_day_intervals_for_user_in_chat`. */
  function DayWorks(works: seq<WorkRow>, user: UserId, chat: ChatId, day: Date): seq<WorkRow>
    requires ValidDate(day)
  {
    Select(works, user, chat, DayWindow(day))
  }

  function DayBreaks(breaks: seq<BreakRow>, user: UserId, chat: ChatId, day: Date): seq<BreakRow>
    requires ValidDate(day)
  {
    Select(breaks, user, chat, DayWindow(day))
  }

  /** The four known types, the keys of `counts` and `durations`. */
  const KnownTypes: set<BreakType> := {Meal, ToiletSmall, ToiletBig, Smoke}

  /** `counts` holds each known type's number of rows in `rows`. */
  predicate CountsTallied(counts: map<BreakType, nat>, rows: seq<BreakRow>) {
    counts.Keys == KnownTypes && forall t :: t in counts ==> counts[t] == CountOfType(rows, t)
  }

  /** `durations` holds each known type's minutes in `rows`, open rows up to `now`. */
  predicate DurationsTallied(durations: map<BreakType, nat>, rows: seq<BreakRow>, now: Instant) {
    durations.Keys == KnownTypes && forall t :: t in durations ==> durations[t] == MinutesOfType(rows, t, now)
  }

  /** `{"meal": 0, "toilet_small": 0, "toilet_big": 0, "smoke": 0}`. */
  const Zeros: map<BreakType, nat> := map[Meal := 0, ToiletSmall := 0, ToiletBig := 0, Smoke := 0]

  /** Before the loop: nothing counted over no rows. */
  lemma ZerosTallied(bs: seq<BreakRow>, now: Instant)
    ensures CountsTallied(Zeros, bs[..0]) && DurationsTallied(Zeros, bs[..0], now)
  {
    assert bs[..0] == [];
  }

  /** One iteration of the count: a known type is counted, any other type is skipped. */
  lemma CountOne(counts: map<BreakType, nat>, bs: seq<BreakRow>, i: nat)
    requires i < |bs| && CountsTallied(counts, bs[..i])
    ensures var k := bs[i].kind;
      CountsTallied(if k in counts then counts[k := counts[k] + 1] else counts, bs[..i + 1])
  {
    PrefixStep(bs, i);
  }

  /** One iteration of the durations: a known type's minutes grow by the row's, any other type is skipped. */
  lemma DurationOne(durations: map<BreakType, nat>, bs: seq<BreakRow>, i: nat, now: Instant)
    requires i < |bs| && DurationsTallied(durations, bs[..i], now)
    ensures var k := bs[i].kind;
      DurationsTallied(if k in durations then durations[k := durations[k] + Elapsed(bs[i], now)] else durations, bs[..i + 1], now)
  {
    PrefixStep(bs, i);
  }

  /** The loop of `compute_daily_summary`: a count and a duration per known type. */
  method TallyKnown(bs: seq<BreakRow>, now: Instant) returns (counts: map<BreakType, nat>, durations: map<BreakType, nat>)
    ensures CountsTallied(counts, bs) && DurationsTallied(durations, bs, now)
  {
    counts := Zeros;
    durations := Zeros;
    ZerosTallied(bs, now);
    var i := 0;
    while i < |bs|
      invariant 0 <= i <= |bs|
      invariant CountsTallied(counts, bs[..i]) && DurationsTallied(durations, bs[..i], now)
      invariant counts.Keys == durations.Keys
    {
      CountOne(counts, bs, i);
      DurationOne(durations, bs, i, now);
      var b := bs[i];
      if b.kind in counts {
        counts := counts[b.kind := counts[b.kind] + 1];
        durations := durations[b.kind := durations[b.kind] + Elapsed(b, now)];
      }
      i := i + 1;
    }
    assert bs[..i] == bs;
  }

  /**
   * `compute_daily_summary`: totals over the day's rows (open rows measured
   * up to `now`), a count and a duration per known break type, and the leave
   * figures as the sums of those.
   */
  method DailySummary(works: seq<WorkRow>, breaks: seq<BreakRow>, user: UserId, chat: ChatId, day: Date, now: Instant)
    returns (s: Summary)
    requires ValidDate(day)
    ensures var ws := DayWorks(works, user, chat, day);
      var bs := DayBreaks(breaks, user, chat, day);
      && s.totalWork == TotalMinutes(ws, now)
      && s.totalBreak == TotalMinutes(bs, now)
      && s.counts.Keys == {Meal, ToiletSmall, ToiletBig, Smoke}
      && s.durations.Keys == {Meal, ToiletSmall, ToiletBig, Smoke}
      && (forall t :: t in s.counts ==> s.counts[t] == CountOfType(bs, t) && s.durations[t] == MinutesOfType(bs, t, now))
      && s.totalLeaveTimes == s.counts[Meal] + s.counts[ToiletSmall] + s.counts[ToiletBig] + s.counts[Smoke]
      && s.totalLeaveMinutes == s.durations[Meal] + s.durations[ToiletSmall] + s.durations[ToiletBig] + s.durations[Smoke]
      && s.totalLeaveTimes == CountKnown(bs) <= |bs|
      && s.totalLeaveMinutes == MinutesKnown(bs, now) <= s.totalBreak
  {
    var ws := DayWorks(works, user, chat, day);
    var bs := DayBreaks(breaks, user, chat, day);
    var counts, durations := TallyKnown(bs, now);
    CountKnownIsSum(bs);
    MinutesKnownIsSum(bs, now);
    var times := counts[Meal] + counts[ToiletSmall] + counts[ToiletBig] + counts[Smoke];
    var minutes := durations[Meal] + durations[ToiletSmall] + durations[ToiletBig] + durations[Smoke];
    s := Summary(TotalMinutes(ws, now), TotalMinutes(bs, now), counts, durations, times, minutes);
  }

  // ---------------------------------------------------------------------
  // Daily leaderboard (`cmd_leaderboard`)
  // ---------------------------------------------------------------------

  /** `(uid, total_work - total_break, total_break)`. */
  datatype Entry = Entry(user: UserId, net: int, breakMinutes: nat)

  function NetOf(e: Entry): int {
    e.net
  }

  /** A person's entry for `day`: net work and break minutes, open rows counted up to `now`. */
  function DayEntry(works: seq<WorkRow>, breaks: seq<BreakRow>, user: UserId, chat: ChatId, day: Date, now: Instant): Entry
    requires ValidDate(day)
  {
    var workMinutes := TotalMinutes(DayWorks(works, user, chat, day), now);
    var breakMinutes := TotalMinutes(DayBreaks(breaks, user, chat, day), now);
    Entry(user, workMinutes - breakMinutes, breakMinutes)
  }

  /** The entry of each user, as one function value. */
  function EntryOf(works: seq<WorkRow>, breaks: seq<BreakRow>, chat: ChatId, day: Date, now: Instant): UserId -> Entry
    requires ValidDate(day)
  {
    u => DayEntry(works, breaks, u, chat, day, now)
  }

  /** The `entries` list: one entry per user, in the users' order. */
  function DayEntries(users: seq<UserId>, works: seq<WorkRow>, breaks: seq<BreakRow>, chat: ChatId, day: Date, now: Instant)
    : seq<Entry>
    requires ValidDate(day)
  {
    MapSeq(users, EntryOf(works, breaks, chat, day, now))
  }

  /** The number of leaderboard lines shown. */
  const LeaderboardSize := 10

  /** The loop of `cmd_leaderboard` that builds one entry per person. */
  method CollectEntries(users: seq<UserId>, works: seq<WorkRow>, breaks: seq<BreakRow>, chat: ChatId, day: Date, now: Instant)
    returns (entries: seq<Entry>)
    requires ValidDate(day)
    ensures entries == DayEntries(users, works, breaks, chat, day, now)
  {
    entries := [];
    var i := 0;
    while i < |users|
      invariant 0 <= i <= |users|
      invariant entries == DayEntries(users[..i], works, breaks, chat, day, now)
    {
      MapSeqStep(users, i, EntryOf(works, breaks, chat, day, now));
      var uid := users[i];
      var totalWork: int := TotalMinutes(DayWorks(works, uid, chat, day), now);
      var totalBreak: nat := TotalMinutes(DayBreaks(breaks, uid, chat, day), now);
      entries := entries + [Entry(uid, totalWork - totalBreak, totalBreak)];
      i := i + 1;
    }
    assert users[..i] == users;
  }

  /**
   * The ranking holds each person of the chat exactly once, with that
   * person's own figures for the day.
   */
  lemma RankedEntries(works: seq<WorkRow>, breaks: seq<BreakRow>, chat: ChatId, day: Date, now: Instant)
    requires ValidDate(day)
    ensures var users := DistinctUsers(works, chat);
      var ranked := SortDesc(DayEntries(users, works, breaks, chat, day, now), NetOf);
      && |ranked| == |users|
      && (forall k :: 0 <= k < |ranked| ==>
            ranked[k] == DayEntry(works, breaks, ranked[k].user, chat, day, now) && ranked[k].user in users)
      && (forall j :: 0 <= j < |works| && works[j].chat == chat ==>
            exists k :: 0 <= k < |ranked| && ranked[k].user == works[j].user)
  {
    var users := DistinctUsers(works, chat);
    var f := EntryOf(works, breaks, chat, day, now);
    var ranked := SortDesc(MapSeq(users, f), NetOf);
    RearrangedEntries(users, f, ranked);
    forall j | 0 <= j < |works| && works[j].chat == chat
      ensures exists k :: 0 <= k < |ranked| && ranked[k].user == works[j].user
    {
      assert works[j].user in users;
      var m :| 0 <= m < |users| && users[m] == works[j].user;
    }
  }

  /** A rearrangement of one entry per user keeps each user's own entry and misses no user. */
  lemma RearrangedEntries(users: seq<UserId>, f: UserId -> Entry, ranked: seq<Entry>)
    requires forall u :: f(u).user == u
    requires multiset(ranked) == multiset(MapSeq(users, f))
    ensures |ranked| == |users|
    ensures forall k :: 0 <= k < |ranked| ==> ranked[k] == f(ranked[k].user) && ranked[k].user in users
    ensures forall m :: 0 <= m < |users| ==> exists k :: 0 <= k < |ranked| && ranked[k].user == users[m]
  {
    assert |ranked| == |multiset(ranked)| == |MapSeq(users, f)|;
    forall k | 0 <= k < |ranked| ensures ranked[k] == f(ranked[k].user) && ranked[k].user in users {
      EntryFromUsers(users, f, ranked[k]);
    }
    forall m | 0 <= m < |users| ensures exists k :: 0 <= k < |ranked| && ranked[k].user == users[m] {
      UserInRanked(users, f, ranked, m);
    }
  }

  lemma EntryFromUsers(users: seq<UserId>, f: UserId -> Entry, e: Entry)
    requires forall u :: f(u).user == u
    requires e in multiset(MapSeq(users, f))
    ensures e == f(e.user) && e.user in users
  {
    var entries := MapSeq(users, f);
    var m :| 0 <= m < |entries| && entries[m] == e;
    assert e.user == users[m];
  }

  lemma UserInRanked(users: seq<UserId>, f: UserId -> Entry, ranked: seq<Entry>, m: nat)
    requires multiset(ranked) == multiset(MapSeq(users, f))
    requires m < |users|
    requires f(users[m]).user == users[m]
    ensures exists k :: 0 <= k < |ranked| && ranked[k].user == users[m]
  {
    var entries := MapSeq(users, f);
    assert entries[m] in multiset(ranked);
    var k :| 0 <= k < |ranked| && ranked[k] == entries[m];
  }

  /**
   * The leaderboard: one entry per person with a work row in the chat, ranked
   * by net minutes, highest first; the first ten are shown.
   */
  method Leaderboard(works: seq<WorkRow>, breaks: seq<BreakRow>, chat: ChatId, day: Date, now: Instant)
    returns (ranked: seq<Entry>, shown: seq<Entry>)
    requires ValidDate(day)
    ensures multiset(ranked) == multiset(DayEntries(DistinctUsers(works, chat), works, breaks, chat, day, now))
    ensures NonIncreasing(ranked, NetOf)
    ensures |ranked| == |DistinctUsers(works, chat)|
    ensures forall k :: 0 <= k < |ranked| ==>
      ranked[k] == DayEntry(works, breaks, ranked[k].user, chat, day, now) && ranked[k].user in DistinctUsers(works, chat)
    ensures forall j :: 0 <= j < |works| && works[j].chat == chat ==>
      exists k :: 0 <= k < |ranked| && ranked[k].user == works[j].user
    ensures |shown| == if |ranked| < LeaderboardSize then |ranked| else LeaderboardSize
    ensures shown == ranked[..|shown|]
  {
    var users := DistinctUsers(works, chat);
    var entries := CollectEntries(users, works, breaks, chat, day, now);
    ranked := SortDesc(entries, NetOf);
    RankedEntries(works, breaks, chat, day, now);
    shown := ranked[..if |ranked| < LeaderboardSize then |ranked| else LeaderboardSize];
  }

  // ---------------------------------------------------------------------
  // Period report rows (`get_work_range_for_user`, `get_break_summary_for_user`)
  // ---------------------------------------------------------------------

  /** Python's `min(xs) if xs else None`. */
  function SeqMin(xs: seq<int>): (m: Option<int>)
    ensures m.None? <==> xs == []
    ensures m.Some? ==> m.value in xs && forall i :: 0 <= i < |xs| ==> m.value <= xs[i]
  {
    if xs == [] then None
    else
      var rest := SeqMin(xs[..|xs| - 1]);
      assert xs == xs[..|xs| - 1] + [xs[|xs| - 1]];
      if rest.Some? && rest.value <= xs[|xs| - 1] then rest else Some(xs[|xs| - 1])
  }

  /** Python's `max(xs) if xs else None`. */
  function SeqMax(xs: seq<int>): (m: Option<int>)
    ensures m.None? <==> xs == []
    ensures m.Some? ==> m.value in xs && forall i :: 0 <= i < |xs| ==> xs[i] <= m.value
  {
    if xs == [] then None
    else
      var rest := SeqMax(xs[..|xs| - 1]);
      assert xs == xs[..|xs| - 1] + [xs[|xs| - 1]];
      if rest.Some? && rest.value >= xs[|xs| - 1] then rest else Some(xs[|xs| - 1])
  }

  /** The `starts` list: every row's start. */
  function StartsOf<K>(rows: seq<Row<K>>): (xs: seq<Instant>)
    ensures |xs| == |rows| && forall i :: 0 <= i < |rows| ==> xs[i] == rows[i].start
  {
    if rows == [] then [] else StartsOf(rows[..|rows| - 1]) + [rows[|rows| - 1].start]
  }

  /** The `ends` list: the ends of the closed rows only. */
  function ClosedEndsOf<K>(rows: seq<Row<K>>): (xs: seq<Instant>)
    ensures forall x :: x in xs <==> exists i :: 0 <= i < |rows| && rows[i].end == Some(x)
  {
    if rows == [] then []
    else
      var prefix := rows[..|rows| - 1];
      assert forall i :: 0 <= i < |prefix| ==> prefix[i] == rows[i];
      ClosedEndsOf(prefix) + (match rows[|rows| - 1].end case Some(e) => [e] case None => [])
  }

  /**
   * `get_work_range_for_user`: the earliest start of the selected work rows,
   * the latest end among those that are closed, and their total minutes with
   * open rows counted up to the window's end.
   */
  method WorkRange(works: seq<WorkRow>, user: UserId, chat: ChatId, w: Window)
    returns (firstStart: Option<Instant>, lastEnd: Option<Instant>, totalWork: nat)
    ensures var rows := Select(works, user, chat, w);
      && firstStart == SeqMin(StartsOf(rows))
      && lastEnd == SeqMax(ClosedEndsOf(rows))
      && totalWork == TotalMinutes(rows, w.utcEnd)
  {
    var rows := Select(works, user, chat, w);
    var starts: seq<Instant> := [];
    var ends: seq<Instant> := [];
    totalWork := 0;
    var i := 0;
    while i < |rows|
      invariant 0 <= i <= |rows|
      invariant starts == StartsOf(rows[..i])
      invariant ends == ClosedEndsOf(rows[..i])
      invariant totalWork == TotalMinutes(rows[..i], w.utcEnd)
    {
      RangeStep(rows, i, w.utcEnd);
      var r := rows[i];
      starts := starts + [r.start];
      if r.end.Some? {
        ends := ends + [r.end.value];
      }
      totalWork := totalWork + MinutesBetween(Some(r.start), Some(r.end.GetOr(w.utcEnd)));
      i := i + 1;
    }
    assert rows[..i] == rows;
    firstStart := SeqMin(starts);
    lastEnd := SeqMax(ends);
  }

  /** The lists and the total of `get_work_range_for_user` after one more row. */
  lemma RangeStep<K>(rows: seq<Row<K>>, i: nat, openUntil: Instant)
    requires i < |rows|
    ensures StartsOf(rows[..i + 1]) == StartsOf(rows[..i]) + [rows[i].start]
    ensures ClosedEndsOf(rows[..i + 1]) == ClosedEndsOf(rows[..i]) + (if rows[i].end.Some? then [rows[i].end.value] else [])
    ensures TotalMinutes(rows[..i + 1], openUntil) == TotalMinutes(rows[..i], openUntil) + Elapsed(rows[i], openUntil)
  {
    PrefixStep(rows, i);
  }

  /** The report's first start is the earliest start of the selected rows, and exists exactly when a row does. */
  lemma FirstStartMeaning<K>(rows: seq<Row<K>>)
    ensures var firstStart := SeqMin(StartsOf(rows));
      && (firstStart.None? <==> rows == [])
      && (firstStart.Some? ==>
            && (exists i :: 0 <= i < |rows| && rows[i].start == firstStart.value)
            && forall i :: 0 <= i < |rows| ==> firstStart.value <= rows[i].start)
  {
    var starts := StartsOf(rows);
    var firstStart := SeqMin(starts);
    if firstStart.Some? {
      var k :| 0 <= k < |starts| && starts[k] == firstStart.value;
      assert rows[k].start == firstStart.value;
    }
  }

  /**
   * The report's last end is the latest end among the closed rows, and exists
   * exactly when some row is closed; open rows play no part.
   */
  lemma LastEndMeaning<K>(rows: seq<Row<K>>)
    ensures var lastEnd := SeqMax(ClosedEndsOf(rows));
      && (lastEnd.None? <==> forall i :: 0 <= i < |rows| ==> rows[i].end.None?)
      && (lastEnd.Some? ==>
            && (exists i :: 0 <= i < |rows| && rows[i].end == lastEnd)
            && forall i :: 0 <= i < |rows| && rows[i].end.Some? ==> rows[i].end.value <= lastEnd.value)
  {
    var ends := ClosedEndsOf(rows);
    var lastEnd := SeqMax(ends);
    if lastEnd.Some? {
      assert lastEnd.value in ends;
      forall i | 0 <= i < |rows| && rows[i].end.Some? ensures rows[i].end.value <= lastEnd.value {
        assert rows[i].end.value in ends;
        var k :| 0 <= k < |ends| && ends[k] == rows[i].end.value;
      }
    }
  }

  /**
   * `get_break_summary_for_user`: the total minutes of the selected break rows
   * (open ones up to the window's end) and how many there are.
   */
  method BreakSummary(breaks: seq<BreakRow>, user: UserId, chat: ChatId, w: Window)
    returns (totalBreak: nat, leaveCount: nat)
    ensures var rows := Select(breaks, user, chat, w);
      totalBreak == TotalMinutes(rows, w.utcEnd) && leaveCount == |rows|
  {
    var rows := Select(breaks, user, chat, w);
    totalBreak, leaveCount := 0, 0;
    var i := 0;
    while i < |rows|
      invariant 0 <= i <= |rows|
      invariant totalBreak == TotalMinutes(rows[..i], w.utcEnd)
      invariant leaveCount == i
    {
      PrefixStep(rows, i);
      var r := rows[i];
      totalBreak := totalBreak + MinutesBetween(Some(r.start), Some(r.end.GetOr(w.utcEnd)));
      leaveCount := leaveCount + 1;
      i := i + 1;
    }
    assert rows[..i] == rows;
  }

  /** One report line; the name lookup is replaced by the user id. */
  datatype ReportRow = ReportRow(
    user: UserId,
    firstStart: Option<Instant>,
    lastEnd: Option<Instant>,
    workMinutes: nat,
    breakMinutes: nat,
    leaveCount: nat)

  function WorkMinutesOf(r: ReportRow): int {
    r.workMinutes
  }

  function ReportRowFor(works: seq<WorkRow>, breaks: seq<BreakRow>, user: UserId, chat: ChatId, w: Window): ReportRow {
    var ws := Select(works, user, chat, w);
    var bs := Select(breaks, user, chat, w);
    ReportRow(user, SeqMin(StartsOf(ws)), SeqMax(ClosedEndsOf(ws)), TotalMinutes(ws, w.utcEnd), TotalMinutes(bs, w.utcEnd), |bs|)
  }

  /** The report row of each user, as one function value. */
  function ReportRowOf(works: seq<WorkRow>, breaks: seq<BreakRow>, chat: ChatId, w: Window): UserId -> ReportRow {
    u => ReportRowFor(works, breaks, u, chat, w)
  }

  /** The `rows` list of `send_report_for_chat` before the sort. */
  function ReportRowsFor(users: seq<UserId>, works: seq<WorkRow>, breaks: seq<BreakRow>, chat: ChatId, w: Window)
    : seq<ReportRow>
  {
    MapSeq(users, ReportRowOf(works, breaks, chat, w))
  }

  /** The loop of `send_report_for_chat` over the people of the chat. */
  method CollectReportRows(users: seq<UserId>, works: seq<WorkRow>, breaks: seq<BreakRow>, chat: ChatId, w: Window)
    returns (rows: seq<ReportRow>)
    ensures rows == ReportRowsFor(users, works, breaks, chat, w)
  {
    rows := [];
    var i := 0;
    while i < |users|
      invariant 0 <= i <= |users|
      invariant rows == ReportRowsFor(users[..i], works, breaks, chat, w)
    {
      MapSeqStep(users, i, ReportRowOf(works, breaks, chat, w));
      var uid := users[i];
      var firstStart, lastEnd, totalWork := WorkRange(works, uid, chat, w);
      var totalBreak, leaveCount := BreakSummary(breaks, uid, chat, w);
      rows := rows + [ReportRow(uid, firstStart, lastEnd, totalWork, totalBreak, leaveCount)];
      i := i + 1;
    }
    assert users[..i] == users;
  }

  /**
   * The rows `send_report_for_chat` hands to the spreadsheet: `None` for an
   * unknown period or a chat without work rows, else one row per person with
   * a work row in the chat, ranked by work minutes, highest first.
   */
  method ReportRows(works: seq<WorkRow>, breaks: seq<BreakRow>, chat: ChatId, period: string, base: Date)
    returns (report: Option<seq<ReportRow>>)
    requires ValidDate(base)
    ensures report.None? <==> PeriodWindow(period, base).None? || DistinctUsers(works, chat) == []
    ensures report.Some? ==>
      var w := PeriodWindow(period, base).value;
      && multiset(report.value) == multiset(ReportRowsFor(DistinctUsers(works, chat), works, breaks, chat, w))
      && NonIncreasing(report.value, WorkMinutesOf)
  {
    var window := PeriodWindow(period, base);
    if window.None? {
      return None;
    }
    var w := window.value;
    var users := DistinctUsers(works, chat);
    if users == [] {
      return None;
    }
    var rows := CollectReportRows(users, works, breaks, chat, w);
    report := Some(SortDesc(rows, WorkMinutesOf));
  }
}
