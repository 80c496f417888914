/**
 * `break_overtime_watcher`: after each reminder interval it looks for an open
 * break of the person in the chat; it stops when there is none, reminds once
 * and stops when the limit of the break that spawned it has passed, and goes
 * on waiting otherwise.
 *
 * The sleeps and the concurrent handlers are replaced by a sequence of
 * observations: the clock and the break table as the watcher sees them at
 * each wake-up.
 */
module Watcher {
  import opened Wrappers
  import opened TimeFormat
  import opened Rows
  import opened Aggregation

  /** `OVERTIME_REMINDER_INTERVAL`, in minutes. */
  const ReminderIntervalMinutes := 3

  /** The limit `BREAK_LIMITS.get(btype, 5)` gives a type that is not in the table. */
  const DefaultLimit := 5

  /** `BREAK_LIMITS.get(btype, 5)`, in minutes. */
  function BreakLimit(kind: BreakType): (limit: nat)
    ensures limit == 5 || limit == 10 || limit == 30
    ensures !IsKnownType(kind) ==> limit == DefaultLimit
    ensures limit == 30 <==> kind == Meal
    ensures limit == 10 <==> kind == ToiletBig
  {
    if kind == ToiletSmall then 5
    else if kind == ToiletBig then 10
    else if kind == Smoke then 5
    else if kind == Meal then 30
    else DefaultLimit
  }

  /** `start_dt_utc + timedelta(minutes=limit_minutes)`. */
  function LimitAt(start: Instant, kind: BreakType): Instant {
    start + BreakLimit(kind) * 60
  }

  datatype Decision = Stop | Notify | Continue

  /**
   * One wake-up: stop silently without an open break, remind and stop once
   * the limit is reached, keep waiting otherwise.
   */
  function Tick(open: bool, now: Instant, limitAt: Instant): (d: Decision)
    ensures d == Stop <==> !open
    ensures d == Notify <==> open && now >= limitAt
    ensures d == Continue <==> open && now < limitAt
  {
    if !open then Stop
    else if now >= limitAt then Notify
    else Continue
  }

  /** What the watcher sees when it wakes up. */
  datatype Observation = Observation(now: Instant, breaks: seq<BreakRow>)

  /**
   * The query asks for any open break of the key, not for the row that
   * spawned the watcher.
   */
  function TickAt(o: Observation, user: UserId, chat: ChatId, limitAt: Instant): Decision {
    Tick(HasOpen(o.breaks, user, chat), o.now, limitAt)
  }

  /** How a run ends: at the wake-up that stopped it, at the one that reminded, or still waiting. */
  datatype WatchOutcome = Stopped(tick: nat) | Notified(tick: nat) | Waiting

  /** The run from wake-up `k` on. */
  function WatchFrom(obs: seq<Observation>, k: nat, user: UserId, chat: ChatId, limitAt: Instant): WatchOutcome
    decreases |obs| - k
  {
    if k >= |obs| then Waiting
    else match TickAt(obs[k], user, chat, limitAt)
      case Stop => Stopped(k)
      case Notify => Notified(k)
      case Continue => WatchFrom(obs, k + 1, user, chat, limitAt)
  }

  /** The `while True` loop of the watcher over the given wake-ups. */
  method Watch(user: UserId, chat: ChatId, kind: BreakType, start: Instant, obs: seq<Observation>)
    returns (outcome: WatchOutcome)
    ensures outcome == WatchFrom(obs, 0, user, chat, LimitAt(start, kind))
  {
    var limitAt := LimitAt(start, kind);
    var k := 0;
    while k < |obs|
      invariant 0 <= k <= |obs|
      invariant WatchFrom(obs, 0, user, chat, limitAt) == WatchFrom(obs, k, user, chat, limitAt)
    {
      var now := obs[k].now;
      var row := NewestOpen(obs[k].breaks, user, chat);
      if row.None? {
        return Stopped(k);
      }
      if now >= limitAt {
        return Notified(k);
      }
      k := k + 1;
    }
    return Waiting;
  }

  /**
   * The run reminds at wake-up `n` exactly when every earlier wake-up found
   * an open break before the limit and wake-up `n` found one at or after it;
   * it stops at `n` exactly when wake-up `n` is the first to find no open
   * break; it is still waiting exactly when every wake-up went on.
   */
  lemma {:induction false} WatchFromIff(obs: seq<Observation>, k: nat, user: UserId, chat: ChatId, limitAt: Instant, n: nat)
    ensures WatchFrom(obs, k, user, chat, limitAt) == Notified(n) <==>
      && k <= n < |obs|
      && (forall j :: k <= j < n ==> TickAt(obs[j], user, chat, limitAt) == Continue)
      && TickAt(obs[n], user, chat, limitAt) == Notify
    ensures WatchFrom(obs, k, user, chat, limitAt) == Stopped(n) <==>
      && k <= n < |obs|
      && (forall j :: k <= j < n ==> TickAt(obs[j], user, chat, limitAt) == Continue)
      && TickAt(obs[n], user, chat, limitAt) == Stop
    ensures WatchFrom(obs, k, user, chat, limitAt) == Waiting <==>
      forall j :: k <= j < |obs| ==> TickAt(obs[j], user, chat, limitAt) == Continue
    decreases |obs| - k
  {
    if k < |obs| && TickAt(obs[k], user, chat, limitAt) == Continue {
      WatchFromIff(obs, k + 1, user, chat, limitAt, n);
    }
  }

  /**
   * At most one reminder: once wake-up `n` has reminded, nothing observed
   * afterwards changes the outcome.
   */
  lemma NotifiesOnce(obs: seq<Observation>, more: seq<Observation>, user: UserId, chat: ChatId, limitAt: Instant, n: nat)
    requires WatchFrom(obs, 0, user, chat, limitAt) == Notified(n)
    ensures n < |obs|
    ensures WatchFrom(obs[..n + 1] + more, 0, user, chat, limitAt) == Notified(n)
  {
    WatchFromIff(obs, 0, user, chat, limitAt, n);
    var obs' := obs[..n + 1] + more;
    assert forall j :: 0 <= j <= n ==> obs'[j] == obs[j];
    WatchFromIff(obs', 0, user, chat, limitAt, n);
  }

  /**
   * With the break left open and a wake-up every three minutes after the
   * start, the reminder comes at the first wake-up at or after the limit:
   * wake-up `(limit + 2) / 3 - 1`, that is after 6 minutes for a 5-minute
   * limit, 12 for 10 and 30 for 30.
   */
  lemma RegularTicksNotify(obs: seq<Observation>, user: UserId, chat: ChatId, start: Instant, kind: BreakType)
    requires forall j :: 0 <= j < |obs| ==>
      obs[j].now == start + ReminderIntervalMinutes * 60 * (j + 1) && HasOpen(obs[j].breaks, user, chat)
    requires (BreakLimit(kind) + 2) / 3 <= |obs|
    ensures WatchFrom(obs, 0, user, chat, LimitAt(start, kind)) == Notified((BreakLimit(kind) + 2) / 3 - 1)
    ensures (BreakLimit(kind) + 2) / 3 * ReminderIntervalMinutes >= BreakLimit(kind)
  {
    var limit := BreakLimit(kind);
    var n := (limit + 2) / 3 - 1;
    var limitAt := LimitAt(start, kind);
    assert 3 * (n + 1) >= limit;
    assert obs[n].now >= limitAt;
    forall j | 0 <= j < n ensures TickAt(obs[j], user, chat, limitAt) == Continue {
      assert 3 * (j + 1) < limit;
    }
    WatchFromIff(obs, 0, user, chat, limitAt, n);
  }

  /**
   * The watcher goes on while any break of the key is open, even after the
   * break that spawned it has been closed and another one opened.
   */
  lemma AnyOpenBreakKeepsWatching(o: Observation, user: UserId, chat: ChatId, limitAt: Instant, spawned: nat, other: nat)
    requires spawned < |o.breaks| && o.breaks[spawned].end.Some?
    requires other < |o.breaks| && IsOpenFor(o.breaks[other], user, chat)
    ensures TickAt(o, user, chat, limitAt) != Stop
    ensures o.now >= limitAt ==> TickAt(o, user, chat, limitAt) == Notify
  {
    assert HasOpen(o.breaks, user, chat);
  }
}
