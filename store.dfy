/**
 * The database: the two interval tables, the per-chat settings and the admin
 * log, with the writes the bot performs on them and the return-to-seat
 * transition that combines a query, a write and the daily summary.
 */
module Store {
  import opened Wrappers
  import opened Calendar
  import opened TimeFormat
  import opened Windows
  import opened Rows
  import opened Aggregation

  /** A row of the `settings` table. The two flags are the stored integers. */
  datatype ChatSettings = ChatSettings(
    reminderText: Option<string>,
    reminderMedia: Option<string>,
    weeklyEnabled: int,
    monthlyEnabled: int)

  /** The row `ensure_settings` inserts: no reminder text or media, both reports off. */
  const DefaultSettings := ChatSettings(None, None, 0, 0)

  /** `ensure_settings` on the settings table: insert the default row if the chat has none. */
  function Ensured(m: map<ChatId, ChatSettings>, chat: ChatId): (r: map<ChatId, ChatSettings>)
    ensures r.Keys == m.Keys + {chat}
    ensures forall c :: c in m ==> r[c] == m[c]
    ensures chat !in m ==> r[chat] == DefaultSettings
  {
    if chat in m then m else m[chat := DefaultSettings]
  }

  /** Ensuring twice is ensuring once, and ensuring an existing chat changes nothing. */
  lemma EnsuredIdempotent(m: map<ChatId, ChatSettings>, chat: ChatId)
    ensures Ensured(Ensured(m, chat), chat) == Ensured(m, chat)
    ensures chat in m ==> Ensured(m, chat) == m
  {
  }

  /** Ensurings for different chats can happen in either order. */
  lemma EnsuredCommute(m: map<ChatId, ChatSettings>, a: ChatId, b: ChatId)
    ensures Ensured(Ensured(m, a), b) == Ensured(Ensured(m, b), a)
  {
  }

  /** `0 if flag else 1`: an integer flag is on when it is not zero. */
  function Toggle(flag: int): (r: int)
    ensures r == 0 || r == 1
    ensures r == 1 <==> flag == 0
  {
    if flag != 0 then 0 else 1
  }

  /** On the values the bot stores, toggling twice restores the flag. */
  lemma ToggleInvolution(flag: int)
    requires flag == 0 || flag == 1
    ensures Toggle(Toggle(flag)) == flag && Toggle(flag) != flag
  {
  }

  /** A row of `admin_logs`. */
  datatype LogEntry = LogEntry(chat: ChatId, admin: UserId, action: string, details: string, at: Instant)

  /** What `handler_return_seat` reports. */
  datatype SeatOutcome =
    | WelcomeBack
    | BackFromBreak(kind: BreakType, start: Instant, used: nat, todayLeaveTimes: nat, todayLeaveMinutes: nat)

  class Database {
    var work: seq<WorkRow>
    var breaks: seq<BreakRow>
    /** The next AUTOINCREMENT ids; deleting rows never lowers them. */
    var nextWorkId: nat
    var nextBreakId: nat
    var settings: map<ChatId, ChatSettings>
    var adminLog: seq<LogEntry>

    /**
     * Ids increase along each table and stay below the next id to hand out.
     * It records AUTOINCREMENT's numbering; no other contract depends on it.
     */
    ghost predicate Valid()
      reads this
    {
      WellNumbered(work, nextWorkId) && WellNumbered(breaks, nextBreakId)
    }

    /** `init_db` on a fresh file: empty tables, ids starting at 1. */
    constructor ()
      ensures Valid()
      ensures work == [] && breaks == [] && settings == map[] && adminLog == []
      ensures nextWorkId == 1 && nextBreakId == 1
    {
      work := [];
      breaks := [];
      nextWorkId := 1;
      nextBreakId := 1;
      settings := map[];
      adminLog := [];
    }

    /** `ensure_settings`: only the settings table may change. */
    method EnsureSettings(chat: ChatId)
      modifies this
      ensures settings == Ensured(old(settings), chat)
      ensures work == old(work) && breaks == old(breaks) && adminLog == old(adminLog)
      ensures nextWorkId == old(nextWorkId) && nextBreakId == old(nextBreakId)
    {
      if chat !in settings {
        settings := settings[chat := DefaultSettings];
      }
    }

    /** `start_work`: one new open row for the key, appended with the next id. */
    method StartWork(user: UserId, chat: ChatId, now: Instant)
      requires Valid()
      modifies this
      ensures Valid()
      ensures settings == Ensured(old(settings), chat)
      ensures work == old(work) + [Row(old(nextWorkId), user, chat, (), now, None)]
      ensures nextWorkId == old(nextWorkId) + 1
      ensures breaks == old(breaks) && nextBreakId == old(nextBreakId) && adminLog == old(adminLog)
      ensures OpenCount(work, user, chat) == OpenCount(old(work), user, chat) + 1
    {
      EnsureSettings(chat);
      OpenCountAppend(work, Row(nextWorkId, user, chat, (), now, None), user, chat);
      work := work + [Row(nextWorkId, user, chat, (), now, None)];
      nextWorkId := nextWorkId + 1;
    }

    /** `start_break`: one new open row of type `kind` for the key. */
    method StartBreak(user: UserId, chat: ChatId, kind: BreakType, now: Instant)
      requires Valid()
      modifies this
      ensures Valid()
      ensures settings == Ensured(old(settings), chat)
      ensures breaks == old(breaks) + [Row(old(nextBreakId), user, chat, kind, now, None)]
      ensures nextBreakId == old(nextBreakId) + 1
      ensures work == old(work) && nextWorkId == old(nextWorkId) && adminLog == old(adminLog)
      ensures OpenCount(breaks, user, chat) == OpenCount(old(breaks), user, chat) + 1
    {
      EnsureSettings(chat);
      OpenCountAppend(breaks, Row(nextBreakId, user, chat, kind, now, None), user, chat);
      breaks := breaks + [Row(nextBreakId, user, chat, kind, now, None)];
      nextBreakId := nextBreakId + 1;
    }

    /**
     * `end_work`: every open work row of the key ends at `now`; no other row
     * changes, and the open rows of other keys stay open.
     */
    method EndWork(user: UserId, chat: ChatId, now: Instant)
      requires Valid()
      modifies this
      ensures Valid()
      ensures settings == Ensured(old(settings), chat)
      ensures |work| == |old(work)|
      ensures forall i :: 0 <= i < |work| ==> work[i] == CloseIfOpen(old(work)[i], user, chat, now)
      ensures !HasOpen(work, user, chat)
      ensures forall u, c :: u != user || c != chat ==> OpenCount(work, u, c) == OpenCount(old(work), u, c)
      ensures breaks == old(breaks) && adminLog == old(adminLog)
      ensures nextWorkId == old(nextWorkId) && nextBreakId == old(nextBreakId)
    {
      EnsureSettings(chat);
      var before := work;
      work := CloseOpenRows(work, user, chat, now);
      forall u, c | u != user || c != chat
        ensures OpenCount(work, u, c) == OpenCount(before, u, c)
      {
        CloseKeepsOtherKeys(before, work, user, chat, now, u, c);
      }
    }

    /** `end_break`: every open break row of the key ends at `now`; no other row changes. */
    method EndBreak(user: UserId, chat: ChatId, now: Instant)
      requires Valid()
      modifies this
      ensures Valid()
      ensures settings == Ensured(old(settings), chat)
      ensures |breaks| == |old(breaks)|
      ensures forall i :: 0 <= i < |breaks| ==> breaks[i] == CloseIfOpen(old(breaks)[i], user, chat, now)
      ensures !HasOpen(breaks, user, chat)
      ensures forall u, c :: u != user || c != chat ==> OpenCount(breaks, u, c) == OpenCount(old(breaks), u, c)
      ensures work == old(work) && adminLog == old(adminLog)
      ensures nextWorkId == old(nextWorkId) && nextBreakId == old(nextBreakId)
    {
      EnsureSettings(chat);
      var before := breaks;
      breaks := CloseOpenRows(breaks, user, chat, now);
      forall u, c | u != user || c != chat
        ensures OpenCount(breaks, u, c) == OpenCount(before, u, c)
      {
        CloseKeepsOtherKeys(before, breaks, user, chat, now, u, c);
      }
    }

    /**
     * The reset of `admin_reset_leaderboard`: both tables lose exactly the
     * rows of `chat`, the ids go on from where they were, and the action is
     * logged.
     */
    method ResetChat(chat: ChatId, admin: UserId, now: Instant)
      requires Valid()
      modifies this
      ensures Valid()
      ensures work == RemoveChat(old(work), chat) && breaks == RemoveChat(old(breaks), chat)
      ensures adminLog == old(adminLog) + [LogEntry(chat, admin, "reset_leaderboard", "cleared work_sessions and break_sessions", now)]
      ensures settings == old(settings)
      ensures nextWorkId == old(nextWorkId) && nextBreakId == old(nextBreakId)
    {
      var keptWork := DeleteChatRows(work, chat);
      var keptBreaks := DeleteChatRows(breaks, chat);
      RemoveChatIds(work, chat, nextWorkId);
      RemoveChatIds(breaks, chat, nextBreakId);
      work, breaks := keptWork, keptBreaks;
      adminLog := adminLog + [LogEntry(chat, admin, "reset_leaderboard", "cleared work_sessions and break_sessions", now)];
    }

    /**
     * `admin_toggle_weekly`: the chat's settings are ensured, its weekly flag
     * is flipped and the new value is logged.
     */
    method ToggleWeekly(chat: ChatId, admin: UserId, now: Instant) returns (newValue: int)
      modifies this
      ensures var before := Ensured(old(settings), chat)[chat];
        && newValue == Toggle(before.weeklyEnabled)
        && settings == Ensured(old(settings), chat)[chat := before.(weeklyEnabled := newValue)]
      ensures adminLog == old(adminLog) + [LogEntry(chat, admin, "toggle_weekly", "set_to:" + IntToString(newValue), now)]
      ensures work == old(work) && breaks == old(breaks)
      ensures nextWorkId == old(nextWorkId) && nextBreakId == old(nextBreakId)
    {
      EnsureSettings(chat);
      newValue := Toggle(settings[chat].weeklyEnabled);
      EnsureSettings(chat);
      settings := settings[chat := settings[chat].(weeklyEnabled := newValue)];
      adminLog := adminLog + [LogEntry(chat, admin, "toggle_weekly", "set_to:" + IntToString(newValue), now)];
    }

    /** `admin_toggle_monthly`: the same for the monthly flag. */
    method ToggleMonthly(chat: ChatId, admin: UserId, now: Instant) returns (newValue: int)
      modifies this
      ensures var before := Ensured(old(settings), chat)[chat];
        && newValue == Toggle(before.monthlyEnabled)
        && settings == Ensured(old(settings), chat)[chat := before.(monthlyEnabled := newValue)]
      ensures adminLog == old(adminLog) + [LogEntry(chat, admin, "toggle_monthly", "set_to:" + IntToString(newValue), now)]
      ensures work == old(work) && breaks == old(breaks)
      ensures nextWorkId == old(nextWorkId) && nextBreakId == old(nextBreakId)
    {
      EnsureSettings(chat);
      newValue := Toggle(settings[chat].monthlyEnabled);
      EnsureSettings(chat);
      settings := settings[chat := settings[chat].(monthlyEnabled := newValue)];
      adminLog := adminLog + [LogEntry(chat, admin, "toggle_monthly", "set_to:" + IntToString(newValue), now)];
    }

    /**
     * `handler_return_seat`. Without an open break nothing is written.
     * Otherwise the newest open break gives the type, start and minutes used,
     * every open break of the key is closed at `now`, and the day's leave
     * figures are those of the summary taken after the close.
     */
    method ReturnToSeat(user: UserId, chat: ChatId, now: Instant) returns (outcome: SeatOutcome)
      requires Valid()
      requires Representable(now + LocalOffset)
      modifies this
      ensures Valid()
      ensures outcome.WelcomeBack? <==> !HasOpen(old(breaks), user, chat)
      ensures outcome.WelcomeBack? ==>
        && work == old(work) && breaks == old(breaks) && settings == old(settings) && adminLog == old(adminLog)
        && nextWorkId == old(nextWorkId) && nextBreakId == old(nextBreakId)
      ensures outcome.BackFromBreak? ==>
        && (exists i :: IsNewestOpen(old(breaks), i, user, chat)
              && outcome.kind == old(breaks)[i].kind && outcome.start == old(breaks)[i].start)
        && outcome.used == MinutesBetween(Some(outcome.start), Some(now))
        && settings == Ensured(old(settings), chat)
        && |breaks| == |old(breaks)|
        && (forall i :: 0 <= i < |breaks| ==> breaks[i] == CloseIfOpen(old(breaks)[i], user, chat, now))
        && !HasOpen(breaks, user, chat)
        && work == old(work) && adminLog == old(adminLog)
        && nextWorkId == old(nextWorkId) && nextBreakId == old(nextBreakId)
        && var today := DayBreaks(breaks, user, chat, LocalDate(now));
           outcome.todayLeaveTimes == CountKnown(today) && outcome.todayLeaveMinutes == MinutesKnown(today, now)
    {
      var found := NewestOpen(breaks, user, chat);
      if found.None? {
        return WelcomeBack;
      }
      var row := breaks[found.value];
      var used := MinutesBetween(Some(row.start), Some(now));
      EndBreak(user, chat, now);
      var summary := DailySummary(work, breaks, user, chat, LocalDate(now), now);
      outcome := BackFromBreak(row.kind, row.start, used, summary.totalLeaveTimes, summary.totalLeaveMinutes);
    }
  }

  /**
   * A break closed by returning to the seat counts in the day's leave figures
   * with the minutes it was used, when it is of a known type and falls in the
   * local day of `now`.
   */
  lemma ClosedBreakInToday(old_breaks: seq<BreakRow>, breaks: seq<BreakRow>, i: nat, user: UserId, chat: ChatId, now: Instant)
    requires Representable(now + LocalOffset)
    requires |breaks| == |old_breaks| && i < |old_breaks|
    requires forall j :: 0 <= j < |breaks| ==> breaks[j] == CloseIfOpen(old_breaks[j], user, chat, now)
    requires IsOpenFor(old_breaks[i], user, chat) && old_breaks[i].start <= now
    ensures breaks[i] in DayBreaks(breaks, user, chat, LocalDate(now))
    ensures breaks[i].end == Some(now)
    ensures Elapsed(breaks[i], now) == MinutesBetween(Some(old_breaks[i].start), Some(now))
  {
    var d := LocalDate(now);
    DayWindowOfInstant(now, d);
    assert Selected(breaks[i], user, chat, DayWindow(d));
  }
}
