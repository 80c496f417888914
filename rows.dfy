/**
 * Rows of the `work_sessions` and `break_sessions` tables and the queries
 * and updates that the SQL statements perform on them.
 *
 * One generic row type serves both tables: a work row carries `()` where a
 * break row carries its type. Times are the instants the stored texts encode
 * (see `TimeFormat.ParseToStr` and `Windows.SqlOverlapsIff`).
 */
module Rows {
  import opened Wrappers
  import opened TimeFormat
  import opened Windows

  type UserId = int
  type ChatId = int
  /** The `type` column: "toilet_small", "toilet_big", "smoke", "meal", or any other text. */
  type BreakType = string

  datatype Row<K> = Row(id: nat, user: UserId, chat: ChatId, kind: K, start: Instant, end: Option<Instant>)

  type WorkRow = Row<()>
  type BreakRow = Row<BreakType>

  /** `user_id=? AND chat_id=? AND end_time IS NULL`. */
  predicate IsOpenFor<K>(r: Row<K>, user: UserId, chat: ChatId) {
    r.user == user && r.chat == chat && r.end.None?
  }

  predicate HasOpen<K>(rows: seq<Row<K>>, user: UserId, chat: ChatId) {
    exists i :: 0 <= i < |rows| && IsOpenFor(rows[i], user, chat)
  }

  function OpenCount<K>(rows: seq<Row<K>>, user: UserId, chat: ChatId): (n: nat)
    ensures n <= |rows|
    ensures n == 0 <==> !HasOpen(rows, user, chat)
  {
    if rows == [] then 0
    else
      var last := rows[|rows| - 1];
      var prefix := rows[..|rows| - 1];
      assert forall i :: 0 <= i < |prefix| ==> prefix[i] == rows[i];
      OpenCount(prefix, user, chat) + (if IsOpenFor(last, user, chat) then 1 else 0)
  }

  /** Row ids strictly increase along the table, as AUTOINCREMENT assigns them. */
  predicate IdsIncreasing<K>(rows: seq<Row<K>>) {
    forall i, j :: 0 <= i < j < |rows| ==> rows[i].id < rows[j].id
  }

  predicate IdsBelow<K>(rows: seq<Row<K>>, next: nat) {
    forall i :: 0 <= i < |rows| ==> rows[i].id < next
  }

  /** The numbering AUTOINCREMENT keeps: increasing ids, all below the next one. */
  predicate WellNumbered<K>(rows: seq<Row<K>>, next: nat) {
    IdsIncreasing(rows) && IdsBelow(rows, next)
  }

  /** Row `i` is the open row of the key with the greatest id (`ORDER BY id DESC LIMIT 1`). */
  predicate IsNewestOpen<K>(rows: seq<Row<K>>, i: int, user: UserId, chat: ChatId) {
    && 0 <= i < |rows|
    && IsOpenFor(rows[i], user, chat)
    && forall j :: 0 <= j < |rows| && IsOpenFor(rows[j], user, chat) ==> rows[j].id <= rows[i].id
  }

  /**
   * `SELECT ... WHERE user_id=? AND chat_id=? AND end_time IS NULL ORDER BY id
   * DESC LIMIT 1`: the index of the open row of the key with the greatest id,
   * or `None` when the key has no open row.
   */
  method NewestOpen<K>(rows: seq<Row<K>>, user: UserId, chat: ChatId) returns (found: Option<nat>)
    ensures found.None? <==> !HasOpen(rows, user, chat)
    ensures found.Some? ==> IsNewestOpen(rows, found.value, user, chat)
  {
    found := None;
    var i := 0;
    while i < |rows|
      invariant 0 <= i <= |rows|
      invariant found.None? <==> !HasOpen(rows[..i], user, chat)
      invariant found.Some? ==> IsNewestOpen(rows[..i], found.value, user, chat)
    {
      assert forall j :: 0 <= j < i ==> rows[..i + 1][j] == rows[..i][j];
      if IsOpenFor(rows[i], user, chat) && (found.None? || rows[found.value].id < rows[i].id) {
        found := Some(i);
      }
      i := i + 1;
    }
    assert rows[..i] == rows;
  }

  /** What `UPDATE ... SET end_time = ? WHERE user_id=? AND chat_id=? AND end_time IS NULL` does to one row. */
  function CloseIfOpen<K>(r: Row<K>, user: UserId, chat: ChatId, at: Instant): Row<K> {
    if IsOpenFor(r, user, chat) then r.(end := Some(at)) else r
  }

  /**
   * The UPDATE of `end_work` / `end_break`: every open row of the key gets the
   * same end, not just the newest; no other row changes.
   */
  method CloseOpenRows<K>(rows: seq<Row<K>>, user: UserId, chat: ChatId, at: Instant) returns (out: seq<Row<K>>)
    ensures |out| == |rows|
    ensures forall i :: 0 <= i < |rows| ==> out[i] == CloseIfOpen(rows[i], user, chat, at)
    ensures !HasOpen(out, user, chat)
  {
    out := rows;
    var i := 0;
    while i < |out|
      invariant 0 <= i <= |out| == |rows|
      invariant forall j :: 0 <= j < i ==> out[j] == CloseIfOpen(rows[j], user, chat, at)
      invariant forall j :: i <= j < |out| ==> out[j] == rows[j]
    {
      if IsOpenFor(out[i], user, chat) {
        out := out[i := out[i].(end := Some(at))];
      }
      i := i + 1;
    }
  }

  /** Closing one key's rows leaves the open rows of every other key as they were. */
  lemma {:induction false} CloseKeepsOtherKeys<K>(rows: seq<Row<K>>, out: seq<Row<K>>, user: UserId, chat: ChatId, at: Instant, u: UserId, c: ChatId)
    requires |out| == |rows|
    requires forall i :: 0 <= i < |rows| ==> out[i] == CloseIfOpen(rows[i], user, chat, at)
    requires u != user || c != chat
    ensures OpenCount(out, u, c) == OpenCount(rows, u, c)
    decreases |rows|
  {
    if rows != [] {
      var n := |rows| - 1;
      CloseKeepsOtherKeys(rows[..n], out[..n], user, chat, at, u, c);
    }
  }

  /** `OpenCount` of a table with one row appended. */
  lemma OpenCountAppend<K>(rows: seq<Row<K>>, r: Row<K>, u: UserId, c: ChatId)
    ensures OpenCount(rows + [r], u, c) == OpenCount(rows, u, c) + (if IsOpenFor(r, u, c) then 1 else 0)
  {
    assert (rows + [r])[..|rows|] == rows;
  }

  /** `DELETE FROM ... WHERE chat_id = ?` keeps the rows of the other chats, in order. */
  function RemoveChat<K>(rows: seq<Row<K>>, chat: ChatId): (out: seq<Row<K>>)
    ensures forall i :: 0 <= i < |out| ==> out[i] in rows && out[i].chat != chat
    ensures forall i :: 0 <= i < |rows| && rows[i].chat != chat ==> rows[i] in out
    ensures |out| <= |rows|
  {
    if rows == [] then []
    else
      var prefix := rows[..|rows| - 1];
      var last := rows[|rows| - 1];
      assert rows == prefix + [last];
      RemoveChat(prefix, chat) + (if last.chat != chat then [last] else [])
  }

  /** The DELETE of the reset as the database runs it: one pass over the table. */
  method DeleteChatRows<K>(rows: seq<Row<K>>, chat: ChatId) returns (out: seq<Row<K>>)
    ensures out == RemoveChat(rows, chat)
  {
    out := [];
    var i := 0;
    while i < |rows|
      invariant 0 <= i <= |rows|
      invariant out == RemoveChat(rows[..i], chat)
    {
      assert rows[..i + 1][..i] == rows[..i];
      if rows[i].chat != chat {
        out := out + [rows[i]];
      }
      i := i + 1;
    }
    assert rows[..i] == rows;
  }

  /** Removing a chat keeps the ids increasing. */
  lemma {:induction false} RemoveChatIds<K>(rows: seq<Row<K>>, chat: ChatId, next: nat)
    requires IdsIncreasing(rows) && IdsBelow(rows, next)
    ensures WellNumbered(RemoveChat(rows, chat), next)
    decreases |rows|
  {
    if rows != [] {
      var prefix, last := rows[..|rows| - 1], rows[|rows| - 1];
      PrefixNumbered(rows, next);
      RemoveChatIds(prefix, chat, last.id);
      SnocNumbered(RemoveChat(prefix, chat), last, next);
    }
  }

  /** Without its last row, a well-numbered table is numbered below that row. */
  lemma PrefixNumbered<K>(rows: seq<Row<K>>, next: nat)
    requires rows != [] && IdsIncreasing(rows) && IdsBelow(rows, next)
    ensures var last := rows[|rows| - 1];
      IdsIncreasing(rows[..|rows| - 1]) && IdsBelow(rows[..|rows| - 1], last.id) && last.id < next
  {
  }

  /** A row numbered above all others may be appended. */
  lemma SnocNumbered<K>(out: seq<Row<K>>, last: Row<K>, next: nat)
    requires WellNumbered(out, last.id) && last.id < next
    ensures WellNumbered(out, next) && WellNumbered(out + [last], next)
  {
  }

  /** The rows one interval query selects: key and overlap with the window. */
  predicate Selected<K>(r: Row<K>, user: UserId, chat: ChatId, w: Window) {
    r.user == user && r.chat == chat && Overlaps(r.start, r.end, w)
  }

  /**
   * The result of `SELECT ... WHERE user_id=? AND chat_id=? AND start_time <= ?
   * AND (end_time IS NULL OR end_time >= ?)`, in table order.
   */
  function Select<K>(rows: seq<Row<K>>, user: UserId, chat: ChatId, w: Window): (out: seq<Row<K>>)
    ensures forall i :: 0 <= i < |out| ==> out[i] in rows && Selected(out[i], user, chat, w)
    ensures forall i :: 0 <= i < |rows| && Selected(rows[i], user, chat, w) ==> rows[i] in out
    ensures |out| <= |rows|
  {
    if rows == [] then []
    else
      var prefix := rows[..|rows| - 1];
      var last := rows[|rows| - 1];
      assert rows == prefix + [last];
      Select(prefix, user, chat, w) + (if Selected(last, user, chat, w) then [last] else [])
  }

  /**
   * `SELECT DISTINCT user_id FROM work_sessions WHERE chat_id = ?`, in order
   * of first appearance.
   */
  function DistinctUsers(rows: seq<WorkRow>, chat: ChatId): (us: seq<UserId>)
    ensures forall i, j :: 0 <= i < j < |us| ==> us[i] != us[j]
    ensures forall u :: u in us <==> exists i :: 0 <= i < |rows| && rows[i].chat == chat && rows[i].user == u
  {
    if rows == [] then []
    else
      var prefix := rows[..|rows| - 1];
      var last := rows[|rows| - 1];
      var before := DistinctUsers(prefix, chat);
      assert forall i :: 0 <= i < |prefix| ==> prefix[i] == rows[i];
      before + (if last.chat == chat && last.user !in before then [last.user] else [])
  }
}
