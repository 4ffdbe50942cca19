/**
 * Guestbook entries as the pages see them: the two `normalizeEntry` functions
 * (src/lib/db-server.ts for typed rows, src/lib/db.ts for parsed JSON), the
 * fallback lists, the server-side merge of pending and approved rows, the
 * client-side approved-only filter and the status-to-flags mapping of
 * `updateGuestbookEntryStatus`.
 */
module Entries {
  import opened Wrappers
  import opened Js
  import Approve

  /** GuestbookStatus. */
  datatype Status = Pending | Approved | Rejected

  /**
   * GuestbookEntry: the derived `status`, `createdAt` and display name, plus
   * the stored columns passed through unchanged (None where the input lacks
   * the property).
   */
  datatype Entry = Entry(
    id: string,
    name: string,
    message: string,
    status: Status,
    createdAt: string,
    createdAtColumn: Option<string>,
    updatedAt: Option<string>,
    edited: Option<Json>,
    approved: Option<Json>,
    rejected: Option<Json>)

  /** `a || b` on optional strings: the first one that is present and non-empty. */
  function OrElse(a: Option<string>, b: string): (r: string)
    ensures a.Some? && a.value != "" ==> r == a.value
    ensures !(a.Some? && a.value != "") ==> r == b
  {
    if a.Some? && a.value != "" then a.value else b
  }

  // ---------------------------------------------------------------------------
  // normalizeEntry, server version (typed rows)

  /** A row as the server-side queries return it; the flag columns are optional in the parameter type. */
  datatype Row = Row(
    id: string,
    name: Option<string>,
    message: string,
    createdAtColumn: Option<string>,
    createdAtField: Option<string>,
    updatedAt: Option<string>,
    edited: Option<bool>,
    approved: Option<bool>,
    rejected: Option<bool>)

  function OptionalBool(b: Option<bool>): Option<Json> {
    if b.Some? then Some(JBool(b.value)) else None
  }

  /**
   * normalizeEntry (db-server.ts). The status has the precedence
   * rejected > pending > approved, with a missing `approved` counting as
   * approved and a missing `rejected` as not rejected; a falsy name becomes
   * "Anonymous"; `createdAt` is `created_at`, else `createdAt`, else `now`.
   */
  function NormalizeRow(row: Row, now: string): (e: Entry)
    ensures e.status == Rejected <==> row.rejected == Some(true)
    ensures e.status == Pending <==> row.rejected != Some(true) && row.approved == Some(false)
    ensures e.status == Approved <==> row.rejected != Some(true) && row.approved != Some(false)
    ensures row.name.Some? && row.name.value != "" ==> e.name == row.name.value
    ensures !(row.name.Some? && row.name.value != "") ==> e.name == "Anonymous"
    ensures e.createdAt == OrElse(row.createdAtColumn, OrElse(row.createdAtField, now))
    ensures e.id == row.id && e.message == row.message
    ensures e.createdAtColumn == row.createdAtColumn && e.updatedAt == row.updatedAt
    ensures e.edited == OptionalBool(row.edited)
    ensures e.approved == OptionalBool(row.approved) && e.rejected == OptionalBool(row.rejected)
  {
    var approved := row.approved != Some(false);
    var rejected := row.rejected == Some(true);
    var status := if rejected then Rejected else if !approved then Pending else Approved;
    Entry(row.id, OrElse(row.name, "Anonymous"), row.message, status,
          OrElse(row.createdAtColumn, OrElse(row.createdAtField, now)),
          row.createdAtColumn, row.updatedAt,
          OptionalBool(row.edited), OptionalBool(row.approved), OptionalBool(row.rejected))
  }

  // ---------------------------------------------------------------------------
  // normalizeEntry, client version (parsed JSON)

  /** An item of the API's JSON answer; the flag properties may hold any JSON value. */
  datatype Item = Item(
    id: string,
    name: Option<string>,
    message: string,
    createdAtColumn: Option<string>,
    createdAtField: Option<string>,
    updatedAt: Option<string>,
    edited: Option<Json>,
    approved: Option<Json>,
    rejected: Option<Json>)

  /**
   * normalizeEntry (db.ts): the same precedence with strict comparisons, so
   * only the JSON value `false` marks an item unapproved and only `true` marks
   * it rejected.
   */
  function NormalizeItem(item: Item, now: string): (e: Entry)
    ensures e.status == Rejected <==> item.rejected == Some(JBool(true))
    ensures e.status == Pending <==> item.rejected != Some(JBool(true)) && item.approved == Some(JBool(false))
    ensures e.status == Approved <==> item.rejected != Some(JBool(true)) && item.approved != Some(JBool(false))
    ensures item.name.Some? && item.name.value != "" ==> e.name == item.name.value
    ensures !(item.name.Some? && item.name.value != "") ==> e.name == "Anonymous"
    ensures e.name != "" && e.createdAt == OrElse(item.createdAtColumn, OrElse(item.createdAtField, now))
    ensures e.id == item.id && e.message == item.message
    ensures e.createdAtColumn == item.createdAtColumn && e.updatedAt == item.updatedAt
    ensures e.approved == item.approved && e.rejected == item.rejected && e.edited == item.edited
  {
    var approved := item.approved != Some(JBool(false));
    var rejected := item.rejected == Some(JBool(true));
    var status := if rejected then Rejected else if !approved then Pending else Approved;
    Entry(item.id, OrElse(item.name, "Anonymous"), item.message, status,
          OrElse(item.createdAtColumn, OrElse(item.createdAtField, now)),
          item.createdAtColumn, item.updatedAt, item.edited, item.approved, item.rejected)
  }

  /** A typed row read as JSON. */
  function AsItem(row: Row): Item {
    Item(row.id, row.name, row.message, row.createdAtColumn, row.createdAtField, row.updatedAt,
         OptionalBool(row.edited), OptionalBool(row.approved), OptionalBool(row.rejected))
  }

  /** The two normalizers agree on every row. */
  lemma NormalizersAgree(row: Row, now: string)
    ensures NormalizeItem(AsItem(row), now) == NormalizeRow(row, now)
  {
    assert (row.approved == Some(false)) == (OptionalBool(row.approved) == Some(JBool(false)));
    assert (row.rejected == Some(true)) == (OptionalBool(row.rejected) == Some(JBool(true)));
  }

  /** Truthy flag values other than the literals do not count: the string "false" leaves an item approved. */
  lemma StrictFlagComparison(item: Item, now: string)
    requires item.approved == Some(JString("false")) && item.rejected == Some(JNumber(1))
    ensures NormalizeItem(item, now).status == Approved
  {
  }

  // ---------------------------------------------------------------------------
  // Fallback lists

  /** `limit || 3`, for an optional numeric limit: absent or 0 means 3. */
  function LimitOrDefault(limit: Option<int>): (n: int)
    ensures limit.Some? && limit.value != 0 ==> n == limit.value
    ensures !(limit.Some? && limit.value != 0) ==> n == 3
  {
    if limit.Some? && limit.value != 0 then limit.value else 3
  }

  /** `includePending ? entries : entries.slice(0, limit || 3)`: the whole list, or a prefix of it. */
  function FallbackSlice(entries: seq<Entry>, includePending: bool, limit: Option<int>): (r: seq<Entry>)
    ensures includePending ==> r == entries
    ensures r <= entries
    ensures !includePending && 0 <= LimitOrDefault(limit) ==>
              |r| == if LimitOrDefault(limit) < |entries| then LimitOrDefault(limit) else |entries|
  {
    if includePending then entries else Slice(entries, 0, LimitOrDefault(limit))
  }

  /** The server's FALLBACK_ENTRIES is empty. */
  const ServerFallback: seq<Entry> := []

  /** The server fallback is empty whatever the options. */
  lemma ServerFallbackIsEmpty(includePending: bool, limit: Option<int>)
    ensures FallbackSlice(ServerFallback, includePending, limit) == []
  {
  }

  /** A preview entry of the client's FALLBACK_ENTRIES: approved, with only the required fields. */
  function Preview(id: string, name: string, message: string, createdAt: string): Entry {
    Entry(id, name, message, Approved, createdAt, None, None, None, None, None)
  }

  const AlexMessage := "Beautiful minimal design. The particle effects add a nice touch without being distracting."
  const SamMessage := "Clean and elegant. Really enjoying the zen garden aesthetic."

  /** The client's FALLBACK_ENTRIES; their timestamps come from the clock (now, and twelve hours earlier). */
  function ClientFallback(now: string, halfDayAgo: string): (r: seq<Entry>)
    ensures |r| == 2 && r[0].id == "preview-1" && r[1].id == "preview-2"
    ensures forall i :: 0 <= i < |r| ==> r[i].status == Approved
  {
    [ Preview("preview-1", "Alex", AlexMessage, now),
      Preview("preview-2", "Sam", SamMessage, halfDayAgo) ]
  }

  /** The client fallback gives both previews with includePending, else at most two approved previews. */
  lemma ClientFallbackBounds(now: string, halfDayAgo: string, includePending: bool, limit: Option<int>)
    ensures var r := FallbackSlice(ClientFallback(now, halfDayAgo), includePending, limit);
            |r| <= 2
            && (includePending ==> |r| == 2)
            && (forall i :: 0 <= i < |r| ==> r[i].status == Approved)
  {
    var all := ClientFallback(now, halfDayAgo);
    var r := FallbackSlice(all, includePending, limit);
    assert forall i :: 0 <= i < |r| ==> r[i] == all[i];
  }

  // ---------------------------------------------------------------------------
  // fetchGuestbookEntriesServer

  function NormalizeRows(rows: seq<Row>, now: string): (es: seq<Entry>)
    ensures |es| == |rows|
    ensures forall i :: 0 <= i < |rows| ==> es[i] == NormalizeRow(rows[i], now)
  {
    seq(|rows|, i requires 0 <= i < |rows| => NormalizeRow(rows[i], now))
  }

  /**
   * fetchGuestbookEntriesServer, given what the two queries returned (None for
   * a query that threw): without a database, or when a query fails, the
   * fallback; otherwise the approved rows, preceded by the pending rows when
   * includePending.
   */
  function ServerFetch(dbConfigured: bool, approvedRows: Option<seq<Row>>, pendingRows: Option<seq<Row>>,
                       includePending: bool, limit: Option<int>, now: string): (r: seq<Entry>)
    ensures !dbConfigured ==> r == FallbackSlice(ServerFallback, includePending, limit)
    ensures dbConfigured && approvedRows.None? ==> r == FallbackSlice(ServerFallback, includePending, limit)
    ensures dbConfigured && approvedRows.Some? && !includePending ==> r == NormalizeRows(approvedRows.value, now)
    ensures dbConfigured && approvedRows.Some? && includePending && pendingRows.Some? ==>
              r == NormalizeRows(pendingRows.value, now) + NormalizeRows(approvedRows.value, now)
    ensures dbConfigured && approvedRows.Some? && includePending && pendingRows.None? ==>
              r == FallbackSlice(ServerFallback, includePending, limit)
  {
    if !dbConfigured || approvedRows.None? then FallbackSlice(ServerFallback, includePending, limit)
    else
      var items := NormalizeRows(approvedRows.value, now);
      if !includePending then items
      else if pendingRows.None? then FallbackSlice(ServerFallback, includePending, limit)
      else NormalizeRows(pendingRows.value, now) + items
  }

  /** The rows the approved-list query selects: approved = TRUE AND rejected = FALSE. */
  predicate ApprovedRow(row: Row) {
    row.approved == Some(true) && row.rejected == Some(false)
  }

  /** The rows the pending-list query selects: approved = FALSE AND rejected = FALSE. */
  predicate PendingRow(row: Row) {
    row.approved == Some(false) && row.rejected == Some(false)
  }

  /**
   * With includePending and rows that satisfy the two WHERE clauses, the
   * result lists every pending entry before every approved one.
   */
  lemma PendingFirst(approvedRows: seq<Row>, pendingRows: seq<Row>, limit: Option<int>, now: string)
    requires forall i :: 0 <= i < |approvedRows| ==> ApprovedRow(approvedRows[i])
    requires forall i :: 0 <= i < |pendingRows| ==> PendingRow(pendingRows[i])
    ensures var r := ServerFetch(true, Some(approvedRows), Some(pendingRows), true, limit, now);
            |r| == |pendingRows| + |approvedRows|
            && (forall i :: 0 <= i < |pendingRows| ==> r[i].status == Pending)
            && (forall i :: |pendingRows| <= i < |r| ==> r[i].status == Approved)
  {
    var r := ServerFetch(true, Some(approvedRows), Some(pendingRows), true, limit, now);
    var p := NormalizeRows(pendingRows, now);
    var a := NormalizeRows(approvedRows, now);
    assert r == p + a;
    forall i | |pendingRows| <= i < |r|
      ensures r[i].status == Approved
    {
      assert r[i] == a[i - |pendingRows|];
    }
  }

  // ---------------------------------------------------------------------------
  // fetchGuestbookEntries, client path

  /** The entries whose status is approved, in their original order. */
  function ApprovedOnly(es: seq<Entry>): (r: seq<Entry>)
    ensures |r| <= |es|
    ensures forall e :: e in r <==> e in es && e.status == Approved
  {
    if es == [] then []
    else if es[0].status == Approved then [es[0]] + ApprovedOnly(es[1..])
    else ApprovedOnly(es[1..])
  }

  /** Each approved entry is kept as often as it occurs; every other entry is dropped. */
  lemma {:induction false} ApprovedOnlyCounts(es: seq<Entry>)
    ensures forall e :: multiset(ApprovedOnly(es))[e] == if e.status == Approved then multiset(es)[e] else 0
  {
    if es != [] {
      assert es == [es[0]] + es[1..];
      ApprovedOnlyCounts(es[1..]);
    }
  }

  /** The filter keeps the order of the list: filtering two pieces one after the other. */
  lemma {:induction false} ApprovedOnlyAppend(a: seq<Entry>, b: seq<Entry>)
    ensures ApprovedOnly(a + b) == ApprovedOnly(a) + ApprovedOnly(b)
  {
    if a == [] {
      assert a + b == b;
    } else {
      var ab := a + b;
      assert ab[0] == a[0] && ab[1..] == a[1..] + b;
      ApprovedOnlyAppend(a[1..], b);
      if a[0].status == Approved {
        calc {
          ApprovedOnly(ab);
          [a[0]] + ApprovedOnly(a[1..] + b);
          [a[0]] + (ApprovedOnly(a[1..]) + ApprovedOnly(b));
          ([a[0]] + ApprovedOnly(a[1..])) + ApprovedOnly(b);
        }
      }
    }
  }

  function NormalizeItems(items: seq<Item>, now: string): (es: seq<Entry>)
    ensures |es| == |items|
    ensures forall i :: 0 <= i < |items| ==> es[i] == NormalizeItem(items[i], now)
  {
    seq(|items|, i requires 0 <= i < |items| => NormalizeItem(items[i], now))
  }

  /**
   * fetchGuestbookEntries in the browser, given the API's items (None when the
   * request or its parsing failed): every normalized item with includePending,
   * else only the approved ones; on failure the client fallback.
   */
  function ClientFetch(items: Option<seq<Item>>, includePending: bool, limit: Option<int>,
                       now: string, halfDayAgo: string): (r: seq<Entry>)
    ensures items.None? ==> r == FallbackSlice(ClientFallback(now, halfDayAgo), includePending, limit)
    ensures items.Some? && includePending ==> r == NormalizeItems(items.value, now)
    ensures items.Some? && !includePending ==>
              forall e :: e in r <==> e in NormalizeItems(items.value, now) && e.status == Approved
    ensures items.Some? && !includePending ==> r == ApprovedOnly(NormalizeItems(items.value, now))
  {
    if items.None? then FallbackSlice(ClientFallback(now, halfDayAgo), includePending, limit)
    else if includePending then NormalizeItems(items.value, now)
    else ApprovedOnly(NormalizeItems(items.value, now))
  }

  /** Without includePending the client never shows an entry that is not approved. */
  lemma ClientShowsOnlyApproved(items: Option<seq<Item>>, limit: Option<int>, now: string, halfDayAgo: string)
    ensures forall e :: e in ClientFetch(items, false, limit, now, halfDayAgo) ==> e.status == Approved
  {
    if items.None? {
      ClientFallbackBounds(now, halfDayAgo, false, limit);
    }
  }

  // ---------------------------------------------------------------------------
  // updateGuestbookEntryStatus

  /** The flags the admin client sends for a requested status: approved = (status is approved), rejected = (status is rejected). */
  function StatusFlags(status: Status): (flags: (bool, bool))
    ensures !(flags.0 && flags.1)
    ensures flags.0 <==> status == Approved
    ensures flags.1 <==> status == Rejected
    ensures status == Pending ==> flags == (false, false)
  {
    (status == Approved, status == Rejected)
  }

  /** The PATCH body the admin client sends; it always carries the `approved` key. */
  function StatusBody(id: string, status: Status): Approve.PatchBody {
    var flags := StatusFlags(status);
    Approve.PatchBody(Some(id), Some(JBool(flags.0)), Some(JBool(flags.1)))
  }

  /**
   * Through the approve endpoint, "approved" and "rejected" are written as
   * requested, but "pending" is written as rejected: the body's `approved` key
   * is present and false.
   */
  lemma RequestedStatusWritten(id: string)
    ensures Approve.PatchFlags(StatusBody(id, Approved)) == (true, false)
    ensures Approve.PatchFlags(StatusBody(id, Rejected)) == (false, true)
    ensures Approve.PatchFlags(StatusBody(id, Pending)) == (false, true)
  {
  }

  /** The row as stored after the UPDATE, read back by the server normalizer. */
  function WrittenRow(row: Row, flags: (bool, bool)): Row {
    row.(approved := Some(flags.0), rejected := Some(flags.1))
  }

  /** Reading back the entry after a status request: approved and rejected round-trip, pending reads back as rejected. */
  lemma StatusAfterUpdate(row: Row, id: string, status: Status, now: string)
    ensures var readBack := NormalizeRow(WrittenRow(row, Approve.PatchFlags(StatusBody(id, status))), now).status;
            (status != Pending ==> readBack == status) && (status == Pending ==> readBack == Rejected)
  {
    RequestedStatusWritten(id);
  }
}
