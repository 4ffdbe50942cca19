/**
 * The guestbook API of src/app/api/guestbook/route.ts when no database is
 * configured: the module-level `memory` array of rows and the POST, GET and
 * DELETE handlers that work on it. The clock, the UUID supplier and SHA-256
 * are parameters; timestamps are integer milliseconds.
 */
module Guestbook {
  import opened Wrappers
  import opened Js
  import opened Env
  import opened Http
  import Connection

  const MaxLimit := 50
  const DefaultLimit := 10
  const MaxMessageLength := 480
  const MaxNameLength := 50
  const RateLimitWindowMs := 30000

  // ---------------------------------------------------------------------------
  // Rows and response items

  /** A row of `memory`; `ipHash` is the SHA-256 hex digest of the poster's address. */
  datatype Row = Row(
    id: string,
    name: Option<string>,
    message: string,
    createdAt: int,
    updatedAt: Option<int>,
    edited: bool,
    ipHash: string,
    approved: bool,
    rejected: bool)

  /** A row as a response item: every column but `ip_hash`. */
  datatype Item = Item(
    id: string,
    name: Option<string>,
    message: string,
    createdAt: int,
    updatedAt: Option<int>,
    edited: bool,
    approved: bool,
    rejected: bool)

  /** `const { ip_hash, ...item } = row`. */
  function ToItem(r: Row): Item {
    Item(r.id, r.name, r.message, r.createdAt, r.updatedAt, r.edited, r.approved, r.rejected)
  }

  function ToItems(rows: seq<Row>): (items: seq<Item>)
    ensures |items| == |rows|
    ensures forall i :: 0 <= i < |rows| ==> items[i] == ToItem(rows[i])
  {
    seq(|rows|, i requires 0 <= i < |rows| => ToItem(rows[i]))
  }

  // ---------------------------------------------------------------------------
  // Environment switches

  /** `(process.env[key] || fallback).toLowerCase()` is one of "1", "true", "yes". */
  predicate EnvFlag(env: Environment, key: string, fallback: string) {
    var v := ToLower(ValueOr(env, key, fallback));
    v == "1" || v == "true" || v == "yes"
  }

  /** isAutoApprove: GUESTBOOK_AUTO_APPROVE, "true" when unset, read as a yes/no flag. */
  function IsAutoApprove(env: Environment): (on: bool)
    ensures on <==> EnvFlag(env, "GUESTBOOK_AUTO_APPROVE", "true")
    ensures !IsSet(env, "GUESTBOOK_AUTO_APPROVE") ==> on
  {
    assert ToLower("true") == "true";
    EnvFlag(env, "GUESTBOOK_AUTO_APPROVE", "true")
  }

  /** isRateLimitEnabled: the negation of the flag GUESTBOOK_DISABLE_RATE_LIMIT, "false" when unset. */
  function IsRateLimitEnabled(env: Environment): (on: bool)
    ensures on <==> !EnvFlag(env, "GUESTBOOK_DISABLE_RATE_LIMIT", "false")
    ensures !IsSet(env, "GUESTBOOK_DISABLE_RATE_LIMIT") ==> on
  {
    assert ToLower("false") == "false";
    !EnvFlag(env, "GUESTBOOK_DISABLE_RATE_LIMIT", "false")
  }

  /** The flag values are read in any ASCII letter case: "YES" switches auto-approval on. */
  lemma FlagIgnoresCase(env: Environment)
    requires Lookup(env, "GUESTBOOK_AUTO_APPROVE") == Some("YES")
    ensures IsAutoApprove(env)
  {
    assert ToLower("YES") == "yes";
  }

  /** Any value outside the three spellings, such as "on", turns auto-approval off. */
  lemma UnknownFlagValueIsOff(env: Environment)
    requires Lookup(env, "GUESTBOOK_AUTO_APPROVE") == Some("on")
    ensures !IsAutoApprove(env)
  {
    assert ToLower("on") == "on";
  }

  // ---------------------------------------------------------------------------
  // The client address

  /** `s.split(",")[0]`: everything before the first comma, or all of `s`. */
  function FirstSegment(s: string): (r: string)
    ensures r <= s && ',' !in r
    ensures r == s || s[|r|] == ','
  {
    if s == [] || s[0] == ',' then [] else [s[0]] + FirstSegment(s[1..])
  }

  /** The header getClientIpHash takes the address from: x-forwarded-for's first piece, else x-real-ip, else cf-connecting-ip. */
  function ChosenAddress(headers: Params): (a: string)
    ensures FirstSegment(Get(headers, "x-forwarded-for")) != "" ==> a == FirstSegment(Get(headers, "x-forwarded-for"))
    ensures FirstSegment(Get(headers, "x-forwarded-for")) == "" && Get(headers, "x-real-ip") != "" ==> a == Get(headers, "x-real-ip")
    ensures FirstSegment(Get(headers, "x-forwarded-for")) == "" && Get(headers, "x-real-ip") == "" ==> a == Get(headers, "cf-connecting-ip")
  {
    var first := FirstSegment(Get(headers, "x-forwarded-for"));
    var realIp := Get(headers, "x-real-ip");
    if first != "" then first else if realIp != "" then realIp else Get(headers, "cf-connecting-ip")
  }

  /**
   * The address getClientIpHash hashes: the chosen header value, trimmed. A
   * forwarded chain contributes only its first hop, so the address then holds
   * no comma.
   */
  function ClientIp(headers: Params): (ip: string)
    ensures FirstSegment(Get(headers, "x-forwarded-for")) != "" ==> ',' !in ip
    ensures |ip| <= |ChosenAddress(headers)|
    ensures IsTrimOf(ip, ChosenAddress(headers))
  {
    TrimIsInfix(ChosenAddress(headers));
    TrimIsTrimOf(ChosenAddress(headers));
    Trim(ChosenAddress(headers))
  }

  /** A forwarded chain is reduced to its first hop: the hops after the first comma never matter. */
  lemma OnlyFirstHopCounts(hop: string, rest: string, headers: Params)
    requires hop != "" && ',' !in hop
    requires headers == map["x-forwarded-for" := hop + "," + rest]
    ensures ClientIp(headers) == Trim(hop)
  {
    FirstSegmentOf(hop, rest);
  }

  lemma {:induction false} FirstSegmentOf(hop: string, rest: string)
    requires ',' !in hop
    ensures FirstSegment(hop + "," + rest) == hop
  {
    if hop != [] {
      assert (hop + "," + rest)[1..] == hop[1..] + "," + rest;
      FirstSegmentOf(hop[1..], rest);
    }
  }

  // ---------------------------------------------------------------------------
  // Submission checks

  /** The body of a POST: each field None when absent, null or not parsed. */
  datatype PostBody = PostBody(name: Option<string>, message: Option<string>, hp: Option<string>)

  /** The honeypot field holds something other than white space. */
  predicate HoneypotFilled(body: PostBody)
    ensures HoneypotFilled(body) <==> body.hp.Some? && |Trim(body.hp.value)| > 0
  {
    body.hp.Some? && !IsBlank(body.hp.value)
  }

  /** `(message || "").trim()`. */
  function TrimmedMessage(body: PostBody): (m: string)
    ensures body.message.None? ==> m == ""
    ensures body.message.Some? ==> IsTrimOf(m, body.message.value)
    ensures Trim(m) == m
  {
    var raw := if body.message.Some? then body.message.value else "";
    TrimIdempotent(raw);
    TrimIsTrimOf(raw);
    Trim(raw)
  }

  /** The trimmed message is between 1 and 480 characters long. */
  predicate MessageAccepted(body: PostBody) {
    0 < |TrimmedMessage(body)| <= MaxMessageLength
  }

  /** `String(name).slice(0, 50)`: the first fifty characters. */
  function CapName(name: string): (c: string)
    ensures |c| <= MaxNameLength
    ensures c == Slice(name, 0, MaxNameLength)
  {
    SliceWindow(name, 0, MaxNameLength);
    if |name| <= MaxNameLength then name else name[..MaxNameLength]
  }

  /** `name ? String(name).slice(0, 50).trim() : null`. */
  function SafeName(name: Option<string>): (r: Option<string>)
    ensures r.None? <==> name.None? || name.value == ""
    ensures r.Some? ==> |r.value| <= MaxNameLength && Trim(r.value) == r.value
    ensures r.Some? && |name.value| <= MaxNameLength ==> r.value == Trim(name.value)
    ensures r.Some? ==> IsTrimOf(r.value, CapName(name.value))
  {
    if name.None? || name.value == "" then None
    else
      var capped := CapName(name.value);
      TrimIdempotent(capped);
      TrimIsTrimOf(capped);
      Some(Trim(capped))
  }

  /** A name of white space alone is stored as the empty string, not as null. */
  lemma BlankNameIsStoredEmpty()
    ensures SafeName(Some("   ")) == Some("")
  {
    var capped := Slice("   ", 0, MaxNameLength);
    assert capped == "   ";
    assert IsBlank(capped);
  }

  // ---------------------------------------------------------------------------
  // Ordering rows newest first

  /** No row is older than a row after it. */
  predicate NewestFirst(s: seq<Row>) {
    forall i, j :: 0 <= i < j < |s| ==> s[i].createdAt >= s[j].createdAt
  }

  /** Put `x` in front of the first row that is not newer than it. */
  function Insert(x: Row, s: seq<Row>): (r: seq<Row>)
    requires NewestFirst(s)
    ensures |r| == |s| + 1
    ensures r[0] == x || (s != [] && r[0] == s[0])
    ensures NewestFirst(r)
  {
    if s == [] || s[0].createdAt <= x.createdAt then [x] + s
    else [s[0]] + Insert(x, s[1..])
  }

  /** Inserting adds `x` and loses nothing. */
  lemma {:induction false} InsertPermutes(x: Row, s: seq<Row>)
    requires NewestFirst(s)
    ensures multiset(Insert(x, s)) == multiset(s) + multiset{x}
  {
    if s != [] && s[0].createdAt > x.createdAt {
      assert s == [s[0]] + s[1..];
      InsertPermutes(x, s[1..]);
    }
  }

  /**
   * `sort((a, b) => time(b) - time(a))`: newest first; the sort is stable, so
   * rows with the same timestamp keep their order.
   */
  function SortNewestFirst(s: seq<Row>): (r: seq<Row>)
    ensures NewestFirst(r)
    ensures multiset(r) == multiset(s)
    ensures |r| == |s|
  {
    if s == [] then []
    else
      assert s == [s[0]] + s[1..];
      InsertPermutes(s[0], SortNewestFirst(s[1..]));
      Insert(s[0], SortNewestFirst(s[1..]))
  }

  // ---------------------------------------------------------------------------
  // Listing

  /** `approved !== false && rejected !== true`. */
  predicate Visible(r: Row) {
    r.approved && !r.rejected
  }

  /** The visible rows, in store order. */
  function VisibleRows(s: seq<Row>): (r: seq<Row>)
    ensures forall x :: x in r <==> x in s && Visible(x)
    ensures |r| <= |s|
  {
    if s == [] then []
    else if Visible(s[0]) then [s[0]] + VisibleRows(s[1..])
    else VisibleRows(s[1..])
  }

  /** Each visible row is kept as often as it occurs in the store; every other row is dropped. */
  lemma {:induction false} VisibleRowsCounts(s: seq<Row>)
    ensures forall x :: multiset(VisibleRows(s))[x] == if Visible(x) then multiset(s)[x] else 0
  {
    if s != [] {
      assert s == [s[0]] + s[1..];
      VisibleRowsCounts(s[1..]);
    }
  }

  /** The filter keeps store order: the visible rows of two stretches of the store, one after the other. */
  lemma {:induction false} VisibleRowsAppend(a: seq<Row>, b: seq<Row>)
    ensures VisibleRows(a + b) == VisibleRows(a) + VisibleRows(b)
  {
    if a == [] {
      assert a + b == b;
    } else {
      var ab := a + b;
      assert ab[0] == a[0] && ab[1..] == a[1..] + b;
      VisibleRowsAppend(a[1..], b);
      if Visible(a[0]) {
        calc {
          VisibleRows(ab);
          [a[0]] + VisibleRows(a[1..] + b);
          [a[0]] + (VisibleRows(a[1..]) + VisibleRows(b));
          ([a[0]] + VisibleRows(a[1..])) + VisibleRows(b);
        }
      }
    }
  }

  /** `Math.min(Math.max(v, 1), 50)`. */
  function ClampLimit(v: int): (n: int)
    ensures 1 <= n <= MaxLimit
    ensures 1 <= v <= MaxLimit ==> n == v
    ensures v < 1 ==> n == 1
    ensures v > MaxLimit ==> n == MaxLimit
  {
    if v < 1 then 1 else if v > MaxLimit then MaxLimit else v
  }

  /** The page size: `parseInt(limit || "10")`, 10 when not a number, clamped to [1, 50]. */
  function ParseLimit(query: Params): (n: int)
    ensures 1 <= n <= MaxLimit
    ensures Get(query, "limit") == "" ==> n == DefaultLimit
    ensures ParseInt(Get(query, "limit")).None? ==> n == DefaultLimit
    ensures ParseInt(Get(query, "limit")).Some? ==> n == ClampLimit(ParseInt(Get(query, "limit")).value)
  {
    var raw := Get(query, "limit");
    IntToStringRoundTrip(DefaultLimit);
    assert IntToString(DefaultLimit) == "10";
    var parsed := ParseInt(if raw != "" then raw else "10");
    ClampLimit(if parsed.Some? then parsed.value else DefaultLimit)
  }

  /** The page start: `parseInt(offset || "0")`, 0 when not a number, at least 0. */
  function ParseOffset(query: Params): (n: nat)
    ensures Get(query, "offset") == "" || ParseInt(Get(query, "offset")).None? ==> n == 0
    ensures ParseInt(Get(query, "offset")).Some? && ParseInt(Get(query, "offset")).value >= 0 ==>
              n == ParseInt(Get(query, "offset")).value
    ensures ParseInt(Get(query, "offset")).Some? && ParseInt(Get(query, "offset")).value < 0 ==> n == 0
  {
    var raw := Get(query, "offset");
    IntToStringRoundTrip(0);
    assert IntToString(0) == "0";
    var parsed := ParseInt(if raw != "" then raw else "0");
    var v := if parsed.Some? then parsed.value else 0;
    if v < 0 then 0 else v
  }

  /** The visible rows, newest first: the sequence a page is cut from. */
  function Timeline(rows: seq<Row>): (t: seq<Row>)
    ensures NewestFirst(t)
    ensures forall x :: x in t <==> x in rows && Visible(x)
    ensures multiset(t) == multiset(VisibleRows(rows))
  {
    var v := VisibleRows(rows);
    var t := SortNewestFirst(v);
    assert forall x :: x in t <==> x in multiset(v);
    t
  }

  /** `t.slice(offset, offset + limit)` for a non-negative offset and limit: the window of `t` they describe. */
  function Window<T>(t: seq<T>, offset: nat, limit: nat): (w: seq<T>)
    ensures |w| <= limit
    ensures w == t[Lo(t, offset)..Hi(t, offset, limit)]
    ensures w == Slice(t, offset, offset + limit)
  {
    SliceWindow(t, offset, limit);
    t[Lo(t, offset)..Hi(t, offset, limit)]
  }

  function Lo<T>(t: seq<T>, offset: nat): (a: nat)
    ensures a <= |t|
  {
    if offset < |t| then offset else |t|
  }

  function Hi<T>(t: seq<T>, offset: nat, limit: nat): (b: nat)
    ensures Lo(t, offset) <= b <= |t|
  {
    if offset + limit < |t| then offset + limit else |t|
  }

  /** A contiguous piece of a newest-first sequence is newest first. */
  lemma NewestFirstPiece(t: seq<Row>, a: nat, b: nat)
    requires NewestFirst(t) && a <= b <= |t|
    ensures NewestFirst(t[a..b])
  {
    forall i, j | 0 <= i < j < b - a ensures t[a..b][i].createdAt >= t[a..b][j].createdAt {
      assert t[a..b][i] == t[a + i] && t[a..b][j] == t[a + j];
    }
  }

  /**
   * The rows the memory branch of GET serializes, as written: at most `limit`
   * visible rows of the store, newest first, starting at `offset` in the
   * timeline. They are whole rows, `ipHash` included.
   */
  function ListRows(rows: seq<Row>, query: Params): (page: seq<Row>)
    ensures |page| <= ParseLimit(query)
    ensures forall x :: x in page ==> x in rows && Visible(x)
    ensures NewestFirst(page)
    ensures page == Window(Timeline(rows), ParseOffset(query), ParseLimit(query))
  {
    var t := Timeline(rows);
    var w := Window(t, ParseOffset(query), ParseLimit(query));
    NewestFirstPiece(t, Lo(t, ParseOffset(query)), Hi(t, ParseOffset(query), ParseLimit(query)));
    assert forall x :: x in w ==> x in t;
    w
  }

  /** The listing as written hands out the poster's address hash: a single visible row is listed with it. */
  lemma ListingRevealsIpHash(r: Row)
    requires Visible(r)
    ensures ListRows([r], map[]) == [r]
    ensures ListRows([r], map[])[0].ipHash == r.ipHash
  {
    assert VisibleRows([r]) == [r];
    assert SortNewestFirst([r]) == [r];
  }

  /** The listing the GET should answer: the same page with `ipHash` removed from every row. */
  function ListItems(rows: seq<Row>, query: Params): (items: seq<Item>)
    ensures items == ToItems(ListRows(rows, query))
  {
    ToItems(ListRows(rows, query))
  }

  /** `row` with its address hash blanked out. */
  function Strip(r: Row): Row {
    r.(ipHash := "")
  }

  function StripAll(s: seq<Row>): (r: seq<Row>)
    ensures |r| == |s|
  {
    if s == [] then [] else [Strip(s[0])] + StripAll(s[1..])
  }

  lemma {:induction false} StripAllIndex(s: seq<Row>, i: nat)
    requires i < |s|
    ensures StripAll(s)[i] == Strip(s[i])
  {
    if i > 0 {
      StripAllIndex(s[1..], i - 1);
    }
  }

  lemma {:induction false} StripAllAppend(a: seq<Row>, b: seq<Row>)
    ensures StripAll(a + b) == StripAll(a) + StripAll(b)
  {
    if a == [] {
      assert a + b == b;
    } else {
      assert (a + b)[0] == a[0];
      assert (a + b)[1..] == a[1..] + b;
      StripAllAppend(a[1..], b);
    }
  }

  lemma {:induction false} VisibleRowsStrip(s: seq<Row>)
    ensures VisibleRows(StripAll(s)) == StripAll(VisibleRows(s))
  {
    if s != [] {
      VisibleRowsStrip(s[1..]);
    }
  }

  lemma StripNewestFirst(s: seq<Row>)
    requires NewestFirst(s)
    ensures NewestFirst(StripAll(s))
  {
    forall i, j | 0 <= i < j < |s| ensures StripAll(s)[i].createdAt >= StripAll(s)[j].createdAt {
      StripAllIndex(s, i);
      StripAllIndex(s, j);
    }
  }

  lemma {:induction false} InsertStrip(x: Row, s: seq<Row>)
    requires NewestFirst(s)
    ensures NewestFirst(StripAll(s))
    ensures Insert(Strip(x), StripAll(s)) == StripAll(Insert(x, s))
  {
    StripNewestFirst(s);
    if s != [] && s[0].createdAt > x.createdAt {
      InsertStrip(x, s[1..]);
      StripAllAppend([s[0]], Insert(x, s[1..]));
    } else {
      StripAllAppend([x], s);
    }
  }

  lemma {:induction false} SortStrip(s: seq<Row>)
    ensures SortNewestFirst(StripAll(s)) == StripAll(SortNewestFirst(s))
  {
    if s != [] {
      SortStrip(s[1..]);
      InsertStrip(s[0], SortNewestFirst(s[1..]));
    }
  }

  /**
   * The corrected listing does not depend on the address hashes at all: two
   * stores that differ only in their hashes give the same items.
   */
  lemma ListingHidesIpHashes(a: seq<Row>, b: seq<Row>, query: Params)
    requires StripAll(a) == StripAll(b)
    ensures ListItems(a, query) == ListItems(b, query)
  {
    ListItemsOfStripped(a, query);
    ListItemsOfStripped(b, query);
  }

  lemma ListItemsOfStripped(s: seq<Row>, query: Params)
    ensures ListItems(StripAll(s), query) == ListItems(s, query)
  {
    VisibleRowsStrip(s);
    SortStrip(VisibleRows(s));
    var t := Timeline(s);
    assert Timeline(StripAll(s)) == StripAll(t);
    WindowStrip(t, ParseOffset(query), ParseLimit(query));
  }

  lemma WindowStrip(t: seq<Row>, offset: nat, limit: nat)
    ensures ToItems(Window(StripAll(t), offset, limit)) == ToItems(Window(t, offset, limit))
  {
    var lo, hi := Lo(t, offset), Hi(t, offset, limit);
    var w := Window(t, offset, limit);
    var v := Window(StripAll(t), offset, limit);
    assert w == t[lo..hi] && v == StripAll(t)[lo..hi];
    forall i | 0 <= i < |w| ensures ToItem(v[i]) == ToItem(w[i]) {
      StripAllIndex(t, lo + i);
    }
  }

  // ---------------------------------------------------------------------------
  // Rate limit

  /** `memory.filter(r => r.ip_hash === ipHash)`: the poster's own rows, in store order. */
  function OwnRows(rows: seq<Row>, ipHash: string): (own: seq<Row>)
    ensures forall x :: x in own <==> x in rows && x.ipHash == ipHash
  {
    if rows == [] then []
    else if rows[0].ipHash == ipHash then [rows[0]] + OwnRows(rows[1..], ipHash)
    else OwnRows(rows[1..], ipHash)
  }

  /** lastForIp: the poster's newest row, the head of their rows sorted newest first. */
  function LastForIp(rows: seq<Row>, ipHash: string): (last: Option<Row>)
    ensures last.None? <==> forall i :: 0 <= i < |rows| ==> rows[i].ipHash != ipHash
    ensures last.Some? ==> last.value in rows && last.value.ipHash == ipHash
    ensures last.Some? ==> forall i :: 0 <= i < |rows| && rows[i].ipHash == ipHash ==> rows[i].createdAt <= last.value.createdAt
  {
    var own := OwnRows(rows, ipHash);
    var sorted := SortNewestFirst(own);
    assert forall x :: x in sorted <==> x in own by {
      assert forall x :: x in sorted <==> x in multiset(own);
    }
    if sorted == [] then
      assert forall i :: 0 <= i < |rows| ==> rows[i].ipHash != ipHash by {
        forall i | 0 <= i < |rows| ensures rows[i].ipHash != ipHash {
          assert rows[i] !in own;
        }
      }
      None
    else
      assert sorted[0] in own;
      forall i | 0 <= i < |rows| && rows[i].ipHash == ipHash ensures rows[i].createdAt <= sorted[0].createdAt {
        assert rows[i] in sorted;
        var k :| 0 <= k < |sorted| && sorted[k] == rows[i];
      }
      Some(sorted[0])
  }

  /** The poster has a row whose age at `now` is under the thirty-second window. */
  predicate RecentlyPosted(rows: seq<Row>, ipHash: string, now: int) {
    var last := LastForIp(rows, ipHash);
    last.Some? && now - last.value.createdAt < RateLimitWindowMs
  }

  /**
   * Looking only at the poster's newest row is the same as asking whether any
   * of their rows is younger than the window; rows with other hashes never
   * count.
   */
  lemma RecentlyPostedIff(rows: seq<Row>, ipHash: string, now: int)
    ensures RecentlyPosted(rows, ipHash, now) <==>
            exists i :: 0 <= i < |rows| && rows[i].ipHash == ipHash && now - rows[i].createdAt < RateLimitWindowMs
  {
    var last := LastForIp(rows, ipHash);
    if RecentlyPosted(rows, ipHash, now) {
      var i :| 0 <= i < |rows| && rows[i] == last.value;
    }
  }

  // ---------------------------------------------------------------------------
  // POST

  /** What POST answers. */
  datatype PostResponse =
    | Rejected                           // 400 {error: "rejected"}
    | InvalidMessage                     // 400 {error: "invalid_message"}
    | RateLimited                        // 429 {error: "rate_limited"}
    | Created(item: Item, approved: bool) // 201 {item, approved}
    | PostToDatabase                     // a database is configured: the SQL branch runs

  /** The row POST appends. */
  function NewRow(env: Environment, ipHash: string, body: PostBody, now: int, newId: string): Row {
    Row(newId, SafeName(body.name), TrimmedMessage(body), now, None, false, ipHash, IsAutoApprove(env), false)
  }

  /** What a row of `memory` always satisfies. */
  predicate Stored(r: Row) {
    && 0 < |r.message| <= MaxMessageLength
    && Trim(r.message) == r.message
    && (r.name.Some? ==> |r.name.value| <= MaxNameLength && Trim(r.name.value) == r.name.value)
    && r.updatedAt.None?
    && !r.edited
    && !r.rejected
  }

  predicate AllStored(rows: seq<Row>) {
    forall i :: 0 <= i < |rows| ==> Stored(rows[i])
  }

  /** The submission passes every check of the memory branch. */
  predicate Accepted(env: Environment, rows: seq<Row>, ipHash: string, body: PostBody, now: int) {
    && !HoneypotFilled(body)
    && MessageAccepted(body)
    && !Connection.RouteDbConfigured(env)
    && !(IsRateLimitEnabled(env) && RecentlyPosted(rows, ipHash, now))
  }

  /**
   * POST against the store `rows`: the answer and the new store. The honeypot,
   * then the message, then the database, then the rate limit; a submission
   * that passes them all appends one row and answers it without its hash.
   */
  function Submit(env: Environment, rows: seq<Row>, ipHash: string, body: PostBody, now: int, newId: string)
    : (out: (PostResponse, seq<Row>))
    ensures HoneypotFilled(body) ==> out == (Rejected, rows)
    ensures !HoneypotFilled(body) && !MessageAccepted(body) ==> out == (InvalidMessage, rows)
    ensures out.0 == RateLimited <==>
              !HoneypotFilled(body) && MessageAccepted(body) && !Connection.RouteDbConfigured(env)
              && IsRateLimitEnabled(env) && RecentlyPosted(rows, ipHash, now)
    ensures out.0.Created? <==> Accepted(env, rows, ipHash, body, now)
    ensures out.0.Created? ==>
              var r := NewRow(env, ipHash, body, now, newId);
              out.1 == rows + [r] && out.0.item == ToItem(r) && out.0.approved == IsAutoApprove(env)
    ensures !out.0.Created? ==> out.1 == rows
  {
    if HoneypotFilled(body) then (Rejected, rows)
    else if !MessageAccepted(body) then (InvalidMessage, rows)
    else if Connection.RouteDbConfigured(env) then (PostToDatabase, rows)
    else if IsRateLimitEnabled(env) && RecentlyPosted(rows, ipHash, now) then (RateLimited, rows)
    else
      var r := NewRow(env, ipHash, body, now, newId);
      (Created(ToItem(r), r.approved), rows + [r])
  }

  /** Every row POST stores is well formed: message trimmed and 1..480 long, name trimmed and at most 50 long. */
  lemma SubmitKeepsStored(env: Environment, rows: seq<Row>, ipHash: string, body: PostBody, now: int, newId: string)
    requires AllStored(rows)
    ensures AllStored(Submit(env, rows, ipHash, body, now, newId).1)
  {
    var out := Submit(env, rows, ipHash, body, now, newId);
    if out.0.Created? {
      assert Stored(NewRow(env, ipHash, body, now, newId));
    }
  }

  /** A second submission from the same address within the window is refused, whatever it says. */
  lemma SecondPostWithinWindowRefused(env: Environment, rows: seq<Row>, ipHash: string,
                                      first: PostBody, second: PostBody, now: int, later: int, id1: string, id2: string)
    requires Submit(env, rows, ipHash, first, now, id1).0.Created?
    requires IsRateLimitEnabled(env)
    requires !HoneypotFilled(second) && MessageAccepted(second)
    requires now <= later < now + RateLimitWindowMs
    ensures Submit(env, Submit(env, rows, ipHash, first, now, id1).1, ipHash, second, later, id2).0 == RateLimited
  {
    var after := Submit(env, rows, ipHash, first, now, id1).1;
    RecentlyPostedIff(after, ipHash, later);
    assert after[|rows|].ipHash == ipHash;
  }

  // ---------------------------------------------------------------------------
  // DELETE

  /** What DELETE answers. */
  datatype DeleteResponse =
    | MissingId          // 400 {error: "missing_id"}
    | NotFound           // 404 {error: "not_found"}
    | Forbidden          // 403 {error: "forbidden"}
    | Deleted            // 200 {ok: true}
    | DeleteInDatabase   // a database is configured: the SQL branch runs

  /**
   * The id to delete: the `id` search parameter trimmed, else the body's `id`
   * trimmed (None when the body is not JSON, has no string id, or its id has no `trim`).
   */
  function DeleteId(query: Params, bodyId: Option<string>): (id: string)
    ensures Trim(Get(query, "id")) != "" ==> id == Trim(Get(query, "id"))
    ensures Trim(Get(query, "id")) == "" ==> id == if bodyId.Some? then Trim(bodyId.value) else ""
  {
    var fromQuery := Trim(Get(query, "id"));
    if fromQuery != "" then fromQuery
    else if bodyId.Some? then Trim(bodyId.value)
    else ""
  }

  /** The id DELETE looks for is always trimmed. */
  lemma DeleteIdTrimmed(query: Params, bodyId: Option<string>)
    ensures Trim(DeleteId(query, bodyId)) == DeleteId(query, bodyId)
  {
    TrimIdempotent(Get(query, "id"));
    if bodyId.Some? {
      TrimIdempotent(bodyId.value);
    }
  }

  /** isAdmin: GUESTBOOK_ADMIN_TOKEN is non-empty and the x-admin-token header equals it exactly, untrimmed. */
  predicate IsDeleteAdmin(env: Environment, headers: Params)
    ensures IsDeleteAdmin(env, headers) <==>
              Get(headers, "x-admin-token") != "" && Lookup(env, "GUESTBOOK_ADMIN_TOKEN") == Some(Get(headers, "x-admin-token"))
  {
    IsSet(env, "GUESTBOOK_ADMIN_TOKEN") && Get(headers, "x-admin-token") == Lookup(env, "GUESTBOOK_ADMIN_TOKEN").value
  }

  /** The row a DELETE looks for: an admin names it by id, anyone else by id and their own hash. */
  datatype Selector = ById(id: string) | ByIdAndHash(id: string, ipHash: string)

  predicate Selects(sel: Selector, r: Row) {
    match sel
    case ById(id) => r.id == id
    case ByIdAndHash(id, ipHash) => r.id == id && r.ipHash == ipHash
  }

  /** `findIndex`: the first index of a selected row, or -1. */
  function FindIndex(rows: seq<Row>, sel: Selector): (i: int)
    ensures -1 <= i < |rows|
    ensures i == -1 <==> forall j :: 0 <= j < |rows| ==> !Selects(sel, rows[j])
    ensures 0 <= i ==> Selects(sel, rows[i]) && forall j :: 0 <= j < i ==> !Selects(sel, rows[j])
  {
    if rows == [] then -1
    else if Selects(sel, rows[0]) then 0
    else
      var k := FindIndex(rows[1..], sel);
      if k == -1 then -1 else k + 1
  }

  /** `splice(i, 1)`: the row at `i` is gone and the others keep their order. */
  function RemoveAt(s: seq<Row>, i: nat): (r: seq<Row>)
    requires i < |s|
    ensures |r| == |s| - 1
    ensures forall j :: 0 <= j < i ==> r[j] == s[j]
    ensures forall j :: i <= j < |r| ==> r[j] == s[j + 1]
  {
    s[..i] + s[i + 1..]
  }

  /** `splice(i, 1)` removes exactly one row: the store loses that one row and nothing else. */
  lemma RemoveAtExactlyOne(s: seq<Row>, i: nat)
    requires i < |s|
    ensures multiset(RemoveAt(s, i)) + multiset{s[i]} == multiset(s)
  {
    assert s == s[..i] + [s[i]] + s[i + 1..];
  }

  function SelectorFor(id: string, isAdmin: bool, ipHash: string): Selector {
    if isAdmin then ById(id) else ByIdAndHash(id, ipHash)
  }

  /**
   * DELETE against the store `rows`: the id check, then the database, then
   * the removal of the first row the caller may delete. RemoveRefusals and RemoveDeletes state
   * what each answer means.
   */
  function Remove(env: Environment, rows: seq<Row>, id: string, isAdmin: bool, ipHash: string)
    : (out: (DeleteResponse, seq<Row>))
    ensures out.0 != Deleted ==> out.1 == rows
    ensures out.0 == Deleted ==> |out.1| + 1 == |rows| && multiset(out.1) <= multiset(rows)
    ensures out.0 == Deleted ==> id != "" && !Connection.RouteDbConfigured(env)
  {
    if id == "" then (MissingId, rows)
    else if Connection.RouteDbConfigured(env) then (DeleteInDatabase, rows)
    else
      var i := FindIndex(rows, SelectorFor(id, isAdmin, ipHash));
      if i == -1 then (if isAdmin then NotFound else Forbidden, rows)
      else
        RemoveAtExactlyOne(rows, i);
        (Deleted, RemoveAt(rows, i))
  }

  /**
   * The refusals of DELETE: missing_id for an empty id; not_found for an
   * admin when no row has the id; forbidden for anyone else when none of
   * their own rows has it. Only a deletion changes the store.
   */
  lemma RemoveRefusals(env: Environment, rows: seq<Row>, id: string, isAdmin: bool, ipHash: string)
    ensures var out := Remove(env, rows, id, isAdmin, ipHash);
            && (id == "" ==> out == (MissingId, rows))
            && (id != "" && Connection.RouteDbConfigured(env) ==> out == (DeleteInDatabase, rows))
            && (out.0 != Deleted ==> out.1 == rows)
            && (out.0 == NotFound <==>
                  id != "" && !Connection.RouteDbConfigured(env) && isAdmin
                  && forall j :: 0 <= j < |rows| ==> rows[j].id != id)
            && (out.0 == Forbidden <==>
                  id != "" && !Connection.RouteDbConfigured(env) && !isAdmin
                  && forall j :: 0 <= j < |rows| ==> !(rows[j].id == id && rows[j].ipHash == ipHash))
  {
  }

  /**
   * A successful DELETE removes the first row the caller may delete: one with
   * that id and, for anyone but an admin, the caller's own address hash.
   */
  lemma RemoveDeletes(env: Environment, rows: seq<Row>, id: string, isAdmin: bool, ipHash: string)
    ensures var out := Remove(env, rows, id, isAdmin, ipHash);
            out.0 == Deleted ==>
              var i := FindIndex(rows, SelectorFor(id, isAdmin, ipHash));
              0 <= i < |rows| && rows[i].id == id && (isAdmin || rows[i].ipHash == ipHash)
              && out.1 == RemoveAt(rows, i)
  {
    var out := Remove(env, rows, id, isAdmin, ipHash);
    if out.0 == Deleted {
      var sel := SelectorFor(id, isAdmin, ipHash);
      var i := FindIndex(rows, sel);
      assert id != "" && !Connection.RouteDbConfigured(env) && i != -1;
      assert out.1 == RemoveAt(rows, i);
      assert Selects(sel, rows[i]);
    }
  }

  /** Removing a row keeps every other row, so the store stays well formed. */
  lemma RemoveKeepsStored(rows: seq<Row>, i: nat)
    requires i < |rows| && AllStored(rows)
    ensures AllStored(RemoveAt(rows, i))
  {
    var r := RemoveAt(rows, i);
    forall j | 0 <= j < |r| ensures Stored(r[j]) {
      if j < i { assert r[j] == rows[j]; } else { assert r[j] == rows[j + 1]; }
    }
  }

  predicate UniqueIds(rows: seq<Row>) {
    forall i, j :: 0 <= i < j < |rows| ==> rows[i].id != rows[j].id
  }

  /** With distinct ids, a successful DELETE leaves no row with that id behind. */
  lemma DeleteRemovesTheId(env: Environment, rows: seq<Row>, id: string, isAdmin: bool, ipHash: string)
    requires UniqueIds(rows)
    requires Remove(env, rows, id, isAdmin, ipHash).0 == Deleted
    ensures forall x :: x in Remove(env, rows, id, isAdmin, ipHash).1 ==> x.id != id
  {
    RemoveDeletes(env, rows, id, isAdmin, ipHash);
    var i := FindIndex(rows, SelectorFor(id, isAdmin, ipHash));
    var r := Remove(env, rows, id, isAdmin, ipHash).1;
    forall x | x in r ensures x.id != id {
      var j :| 0 <= j < |r| && r[j] == x;
      if j < i { assert r[j] == rows[j]; } else { assert r[j] == rows[j + 1]; }
    }
  }

  /**
   * DELETE undoes POST: right after a submission, its author can delete it by
   * its new id (fresh among the stored ids), and the store is as it was.
   */
  lemma AuthorCanDeleteOwnPost(env: Environment, rows: seq<Row>, ipHash: string, body: PostBody, now: int, newId: string)
    requires Submit(env, rows, ipHash, body, now, newId).0.Created?
    requires forall j :: 0 <= j < |rows| ==> rows[j].id != newId
    requires newId != ""
    ensures var after := Submit(env, rows, ipHash, body, now, newId).1;
            Remove(env, after, newId, false, ipHash) == (Deleted, rows)
  {
    var after := Submit(env, rows, ipHash, body, now, newId).1;
    var sel := SelectorFor(newId, false, ipHash);
    assert Selects(sel, after[|rows|]);
    assert forall j :: 0 <= j < |rows| ==> !Selects(sel, after[j]);
    assert FindIndex(after, sel) == |rows|;
    assert RemoveAt(after, |rows|) == rows;
  }

  /** Someone else's row is out of reach for a DELETE without the admin token. */
  lemma OthersCannotDelete(env: Environment, rows: seq<Row>, id: string, ipHash: string)
    requires forall j :: 0 <= j < |rows| && rows[j].id == id ==> rows[j].ipHash != ipHash
    ensures Remove(env, rows, id, false, ipHash).1 == rows
  {
    RemoveRefusals(env, rows, id, false, ipHash);
  }

  // ---------------------------------------------------------------------------
  // The store

  /** What GET answers. */
  datatype GetResponse =
    | Items(items: seq<Item>)   // 200 {items}
    | ListFromDatabase          // a database is configured: the SQL branch runs

  /** The module-level `memory` array and the three handlers that use it. */
  class Store {
    var rows: seq<Row>

    predicate Valid()
      reads this
    {
      AllStored(rows)
    }

    constructor ()
      ensures Valid() && rows == []
    {
      rows := [];
    }

    /** `memory.push(row)`: append one well-formed row. */
    method Append(row: Row)
      requires Valid() && Stored(row)
      modifies this
      ensures Valid()
      ensures rows == old(rows) + [row]
    {
      rows := rows + [row];
    }

    /**
     * POST /api/guestbook, memory branch. `ipHash` is the hex SHA-256 digest of
     * ClientIp(headers), `now` the clock and `newId` a fresh UUID.
     */
    method Post(env: Environment, ipHash: string, body: PostBody, now: int, newId: string)
      returns (res: PostResponse)
      requires Valid()
      modifies this
      ensures Valid()
      ensures (res, rows) == Submit(env, old(rows), ipHash, body, now, newId)
    {
      if HoneypotFilled(body) {
        return Rejected;
      }
      var trimmed := TrimmedMessage(body);
      if |trimmed| == 0 || |trimmed| > MaxMessageLength {
        return InvalidMessage;
      }
      var safeName := SafeName(body.name);
      if Connection.RouteDbConfigured(env) {
        return PostToDatabase;
      }
      if IsRateLimitEnabled(env) {
        var lastForIp := LastForIp(rows, ipHash);
        if lastForIp.Some? && now - lastForIp.value.createdAt < RateLimitWindowMs {
          return RateLimited;
        }
      }
      var row := Row(newId, safeName, trimmed, now, None, false, ipHash, IsAutoApprove(env), false);
      assert row == NewRow(env, ipHash, body, now, newId);
      Append(row);
      res := Created(ToItem(row), row.approved);
    }

    /** GET /api/guestbook, corrected so that the items carry no address hash. */
    function Get(env: Environment, query: Params): (r: GetResponse)
      reads this
      ensures Connection.RouteDbConfigured(env) ==> r == ListFromDatabase
      ensures !Connection.RouteDbConfigured(env) ==> r == Items(ListItems(rows, query))
      ensures r.Items? ==> |r.items| <= ParseLimit(query)
    {
      if Connection.RouteDbConfigured(env) then ListFromDatabase else Items(ListItems(rows, query))
    }

    /** `findIndex` then `splice(idx, 1)`: remove the first selected row, if there is one. */
    method RemoveFirst(sel: Selector) returns (found: bool)
      requires Valid()
      modifies this
      ensures Valid()
      ensures found <==> FindIndex(old(rows), sel) != -1
      ensures rows == if found then RemoveAt(old(rows), FindIndex(old(rows), sel)) else old(rows)
    {
      var idx := FindIndex(rows, sel);
      found := idx != -1;
      if found {
        RemoveKeepsStored(rows, idx);
        rows := RemoveAt(rows, idx);
      }
    }

    /**
     * DELETE /api/guestbook, memory branch. `id` is DeleteId of the query and
     * the body, `ipHash` the hex SHA-256 digest of ClientIp(headers).
     */
    method Delete(env: Environment, headers: Params, id: string, ipHash: string) returns (res: DeleteResponse)
      requires Valid()
      modifies this
      ensures Valid()
      ensures (res, rows) == Remove(env, old(rows), id, IsDeleteAdmin(env, headers), ipHash)
    {
      if id == "" {
        return MissingId;
      }
      if Connection.RouteDbConfigured(env) {
        return DeleteInDatabase;
      }
      var isAdmin := IsDeleteAdmin(env, headers);
      var found := RemoveFirst(SelectorFor(id, isAdmin, ipHash));
      res := if found then Deleted else if isAdmin then NotFound else Forbidden;
    }
  }
}
