/**
 The click-tracking store of lib/db.ts: the `clicks` table, the `daily_stats`
 table it keeps in step, and the aggregate queries the dashboard reads.

 A timestamp is a whole number of seconds since the Unix epoch (UTC), which is
 what SQLite's `datetime('now')` text encodes; comparing two such texts is the
 same as comparing the numbers. A date, as produced by `date(clicked_at)` or by
 `toISOString().split('T')[0]`, is the day number `t / 86400`. The wall clock
 is the parameter `now`.
 */
module ClickStore {
  import opened Text
  import opened Tally
  import opened Sorting
  import opened Grouping

  const SecondsPerDay: nat := 86400

  type Timestamp = nat

  function DayOf(t: Timestamp): nat {
    t / SecondsPerDay
  }

  /** A row of `clicks`. The three optional columns are NULL when absent. */
  datatype Click = Click(
    id: nat,
    platform: string,
    url: string,
    clickedAt: Timestamp,
    userAgent: Option<string>,
    ipHash: Option<string>,
    referrer: Option<string>)

  /** The analytics database: the clicks in rowid order, `daily_stats` keyed by
      date, and the largest rowid ever handed out (AUTOINCREMENT). */
  datatype Db = Db(clicks: seq<Click>, dailyStats: map<nat, nat>, lastRowId: nat)

  /** The argument object of `registerClick`; the optional fields may be
      missing. */
  datatype ClickInput = ClickInput(
    platform: string,
    url: string,
    userAgent: Option<string>,
    ipHash: Option<string>,
    referrer: Option<string>)

  /** A freshly created database (`initDb` on an empty file). */
  function EmptyDb(): Db {
    Db([], map[], 0)
  }

  function Platforms(clicks: seq<Click>): (ps: seq<string>)
    ensures |ps| == |clicks|
    ensures forall i :: 0 <= i < |clicks| ==> ps[i] == clicks[i].platform
  {
    Map(clicks, (c: Click) => c.platform)
  }

  function Urls(clicks: seq<Click>): (us: seq<string>)
    ensures |us| == |clicks|
    ensures forall i :: 0 <= i < |clicks| ==> us[i] == clicks[i].url
  {
    Map(clicks, (c: Click) => c.url)
  }

  function Days(clicks: seq<Click>): (ds: seq<nat>)
    ensures |ds| == |clicks|
    ensures forall i :: 0 <= i < |clicks| ==> ds[i] == DayOf(clicks[i].clickedAt)
  {
    Map(clicks, (c: Click) => DayOf(c.clickedAt))
  }

  /** Number of stored clicks made on day `d`. */
  function ClicksOnDay(clicks: seq<Click>, d: nat): nat {
    Count(Days(clicks), d)
  }

  /** The database is consistent: rowids strictly increase and never exceed the
      AUTOINCREMENT counter, and `daily_stats` holds, for exactly the days that
      have clicks, the number of clicks of that day. */
  ghost predicate Valid(db: Db) {
    && (forall i, j :: 0 <= i < j < |db.clicks| ==> db.clicks[i].id < db.clicks[j].id)
    && (forall i :: 0 <= i < |db.clicks| ==> db.clicks[i].id <= db.lastRowId)
    && (forall d :: d in db.dailyStats ==> db.dailyStats[d] == ClicksOnDay(db.clicks, d))
    && (forall d :: ClicksOnDay(db.clicks, d) > 0 ==> d in db.dailyStats)
  }

  lemma EmptyDbValid()
    ensures Valid(EmptyDb())
  {
  }

  /** `value || null`: an absent or empty string is stored as NULL. */
  function NullIfEmpty(v: Option<string>): (r: Option<string>)
    ensures r.None? <==> v.None? || v.value == ""
    ensures r.Some? ==> r == v
  {
    if v.Some? && v.value != "" then v else None
  }

  /** The first statement of `registerClick`: the INSERT into `clicks`, which
      appends one click stamped `now` under a fresh rowid. It commits on its
      own; `daily_stats` is not touched. */
  function InsertClick(db: Db, input: ClickInput, now: Timestamp): (res: (Db, nat))
    ensures var (db', id) := res;
      && db'.clicks == db.clicks + [Click(id, input.platform, input.url, now,
           NullIfEmpty(input.userAgent), NullIfEmpty(input.ipHash), NullIfEmpty(input.referrer))]
      && id > db.lastRowId && db'.lastRowId == id
      && db'.dailyStats == db.dailyStats
  {
    var id := db.lastRowId + 1;
    var click := Click(id, input.platform, input.url, now,
      NullIfEmpty(input.userAgent), NullIfEmpty(input.ipHash), NullIfEmpty(input.referrer));
    (Db(db.clicks + [click], db.dailyStats, id), id)
  }

  /** The second statement of `registerClick`: `INSERT INTO daily_stats ...
      ON CONFLICT(date) DO UPDATE SET total_clicks = total_clicks + 1`. */
  function BumpDay(stats: map<nat, nat>, today: nat): (r: map<nat, nat>)
    ensures today in r && r[today] == (if today in stats then stats[today] + 1 else 1)
    ensures forall d :: d != today ==> (d in r <==> d in stats)
    ensures forall d :: d != today && d in stats ==> r[d] == stats[d]
  {
    stats[today := if today in stats then stats[today] + 1 else 1]
  }

  /** `registerClick`: inserts one click stamped `now` and bumps today's
      counter, returning the new rowid. */
  function RegisterClick(db: Db, input: ClickInput, now: Timestamp): (res: (Db, nat))
    ensures var (db', id) := res;
      && |db'.clicks| == |db.clicks| + 1
      && db'.clicks[..|db.clicks|] == db.clicks
      && db'.clicks[|db.clicks|] == Click(id, input.platform, input.url, now,
           NullIfEmpty(input.userAgent), NullIfEmpty(input.ipHash), NullIfEmpty(input.referrer))
      && id > db.lastRowId && db'.lastRowId == id
    ensures var db' := res.0; var today := DayOf(now);
      && today in db'.dailyStats
      && db'.dailyStats[today] == (if today in db.dailyStats then db.dailyStats[today] + 1 else 1)
      && (forall d :: d != today ==> (d in db'.dailyStats <==> d in db.dailyStats))
      && (forall d :: d != today && d in db.dailyStats ==> db'.dailyStats[d] == db.dailyStats[d])
  {
    var (inserted, id) := InsertClick(db, input, now);
    assert inserted.clicks[..|db.clicks|] == db.clicks;
    (inserted.(dailyStats := BumpDay(inserted.dailyStats, DayOf(now))), id)
  }

  /** The INSERT and the upsert are not one transaction. When the upsert
      throws after the INSERT committed, the stored click is missing from
      `daily_stats`, and the database is no longer consistent. */
  lemma {:induction false} InsertAloneBreaksValid(db: Db, input: ClickInput, now: Timestamp)
    requires Valid(db)
    ensures !Valid(InsertClick(db, input, now).0)
  {
    var db' := InsertClick(db, input, now).0;
    var today := DayOf(now);
    assert Days(db'.clicks) == Days(db.clicks) + [today];
    CountAppend(Days(db.clicks), [today], today);
    assert Count([today], today) == 1 by {
      assert [today][1..] == [];
    }
    assert ClicksOnDay(db'.clicks, today) == ClicksOnDay(db.clicks, today) + 1;
  }

  /** `getTotalClicks`. */
  function TotalClicks(db: Db): (n: nat)
    ensures n == |db.clicks|
    ensures n == 0 <==> db.clicks == []
    ensures forall d :: ClicksOnDay(db.clicks, d) <= n
  {
    |db.clicks|
  }

  /** Registering a click adds exactly one to the total. */
  lemma RegisterIncrementsTotal(db: Db, input: ClickInput, now: Timestamp)
    ensures TotalClicks(RegisterClick(db, input, now).0) == TotalClicks(db) + 1
  {
  }

  /** The rowid handed out is larger than every rowid already stored. */
  lemma RegisterFreshId(db: Db, input: ClickInput, now: Timestamp)
    requires Valid(db)
    ensures forall c :: c in db.clicks ==> c.id < RegisterClick(db, input, now).1
  {
  }

  /** When every insert goes through `registerClick`, `daily_stats[d]` is the
      number of clicks made on day `d`. */
  lemma {:induction false} RegisterPreservesValid(db: Db, input: ClickInput, now: Timestamp)
    requires Valid(db)
    ensures Valid(RegisterClick(db, input, now).0)
  {
    var (db', id) := RegisterClick(db, input, now);
    var today := DayOf(now);
    assert Days(db'.clicks) == Days(db.clicks) + [today];
    forall d ensures ClicksOnDay(db'.clicks, d) == ClicksOnDay(db.clicks, d) + (if d == today then 1 else 0) {
      CountAppend(Days(db.clicks), [today], d);
      assert Count([today], d) == (if d == today then 1 else 0) by {
        assert [today][1..] == [];
      }
    }
  }

  /** Any sequence of registrations starting from an empty database. */
  function RegisterAll(db: Db, inputs: seq<(ClickInput, Timestamp)>): Db
    decreases |inputs|
  {
    if inputs == [] then db
    else RegisterAll(RegisterClick(db, inputs[0].0, inputs[0].1).0, inputs[1..])
  }

  lemma {:induction false} RegisterAllValid(db: Db, inputs: seq<(ClickInput, Timestamp)>)
    requires Valid(db)
    ensures Valid(RegisterAll(db, inputs))
    ensures TotalClicks(RegisterAll(db, inputs)) == TotalClicks(db) + |inputs|
    decreases |inputs|
  {
    if inputs != [] {
      RegisterPreservesValid(db, inputs[0].0, inputs[0].1);
      RegisterAllValid(RegisterClick(db, inputs[0].0, inputs[0].1).0, inputs[1..]);
    }
  }

  /** `getClicksByPlatform`: `GROUP BY platform ORDER BY count DESC`. */
  function ClicksByPlatform(db: Db): (rows: seq<Row<string>>)
    ensures NoDup(Keys(rows))
    ensures forall i :: 0 <= i < |rows| ==>
      rows[i].count > 0 && rows[i].count == Count(Platforms(db.clicks), rows[i].key)
    ensures forall c :: c in db.clicks ==> c.platform in Keys(rows)
    ensures forall p :: p in Keys(rows) ==> p in Platforms(db.clicks)
    ensures SortedDesc(rows, RowCount)
    ensures RowTotal(rows) == TotalClicks(db)
  {
    var rows := GroupBy(Platforms(db.clicks), RowCount);
    PlatformGroups(db.clicks, rows);
    rows
  }

  lemma PlatformGroups(clicks: seq<Click>, rows: seq<Row<string>>)
    requires GroupsOf(rows, Platforms(clicks))
    ensures forall i :: 0 <= i < |rows| ==> rows[i].count > 0
    ensures forall c :: c in clicks ==> c.platform in Keys(rows)
  {
    forall i | 0 <= i < |rows| ensures rows[i].count > 0 {
      GroupCountsPositive(rows, Platforms(clicks), i);
    }
    forall c | c in clicks ensures c.platform in Keys(rows) {
      var i :| 0 <= i < |clicks| && clicks[i] == c;
      assert Platforms(clicks)[i] == c.platform;
    }
  }

  /** A row of `getTopLinks`. */
  datatype LinkRow = LinkRow(platform: string, url: string, count: nat)

  function LinkCount(r: LinkRow): int {
    r.count
  }

  function LinkUrls(rows: seq<LinkRow>): (us: seq<string>)
    ensures |us| == |rows|
    ensures forall i :: 0 <= i < |rows| ==> us[i] == rows[i].url
  {
    Map(rows, (r: LinkRow) => r.url)
  }

  /** Some stored click was made on `platform` and went to `url`. */
  predicate ClickedFrom(clicks: seq<Click>, url: string, platform: string) {
    exists i :: 0 <= i < |clicks| && clicks[i].url == url && clicks[i].platform == platform
  }

  /** The `platform` column of a `GROUP BY url` group. SQLite fills a bare
      column from an arbitrary row of the group; the model picks the group's
      last row, and its contract promises only that some click of the url
      was made from that platform. */
  function PlatformOfUrl(clicks: seq<Click>, url: string): (p: string)
    requires url in Urls(clicks)
    ensures ClickedFrom(clicks, url, p)
  {
    var last := clicks[|clicks| - 1];
    if last.url == url then last.platform
    else
      var init := clicks[..|clicks| - 1];
      assert url in Urls(init) by {
        var i :| 0 <= i < |clicks| && Urls(clicks)[i] == url;
        assert i < |clicks| - 1 && Urls(init)[i] == url;
      }
      var p := PlatformOfUrl(init, url);
      ghost var i :| 0 <= i < |init| && init[i].url == url && init[i].platform == p;
      assert clicks[i] == init[i];
      p
  }

  function ToLinkRows(clicks: seq<Click>, groups: seq<Row<string>>): (rows: seq<LinkRow>)
    requires forall i :: 0 <= i < |groups| ==> groups[i].key in Urls(clicks)
    ensures |rows| == |groups|
    ensures forall i :: 0 <= i < |groups| ==>
      rows[i] == LinkRow(PlatformOfUrl(clicks, groups[i].key), groups[i].key, groups[i].count)
  {
    seq(|groups|, i requires 0 <= i < |groups| =>
      LinkRow(PlatformOfUrl(clicks, groups[i].key), groups[i].key, groups[i].count))
  }

  /** `getTopLinks(limit)`: `GROUP BY url ORDER BY count DESC LIMIT limit`. */
  function TopLinks(db: Db, limit: int): (rows: seq<LinkRow>)
    ensures 0 <= limit ==> |rows| <= limit
    ensures |rows| == if 0 <= limit < |Distinct(Urls(db.clicks))| then limit else |Distinct(Urls(db.clicks))|
    ensures NoDup(LinkUrls(rows))
    ensures forall i :: 0 <= i < |rows| ==>
      rows[i].count > 0 && rows[i].count == Count(Urls(db.clicks), rows[i].url)
    ensures forall i :: 0 <= i < |rows| ==>
      ClickedFrom(db.clicks, rows[i].url, rows[i].platform)
    ensures SortedDesc(rows, LinkCount)
    ensures forall u, i :: u in Urls(db.clicks) && u !in LinkUrls(rows) && 0 <= i < |rows| ==>
      Count(Urls(db.clicks), u) <= rows[i].count
    ensures limit < 0 || |Distinct(Urls(db.clicks))| <= limit ==>
      forall u :: u in Urls(db.clicks) ==> u in LinkUrls(rows)
  {
    TopLinkRowsFacts(db.clicks, limit);
    TopLinkRows(db.clicks, limit)
  }

  /** The query itself: group by url, order, attach a platform, cut. */
  function TopLinkRows(clicks: seq<Click>, limit: int): seq<LinkRow> {
    var groups := GroupBy(Urls(clicks), RowCount);
    GroupKeysOccur(groups, Urls(clicks));
    Limit(ToLinkRows(clicks, groups), limit)
  }

  lemma GroupKeysOccur(groups: seq<Row<string>>, xs: seq<string>)
    requires GroupsOf(groups, xs)
    ensures forall i :: 0 <= i < |groups| ==> groups[i].key in xs
  {
    forall i | 0 <= i < |groups| ensures groups[i].key in xs {
      assert groups[i].key == Keys(groups)[i];
    }
  }

  lemma TopLinkRowsFacts(clicks: seq<Click>, limit: int)
    ensures 0 <= limit ==> |TopLinkRows(clicks, limit)| <= limit
    ensures |TopLinkRows(clicks, limit)| ==
      if 0 <= limit < |Distinct(Urls(clicks))| then limit else |Distinct(Urls(clicks))|
    ensures NoDup(LinkUrls(TopLinkRows(clicks, limit)))
    ensures forall i :: 0 <= i < |TopLinkRows(clicks, limit)| ==>
      TopLinkRows(clicks, limit)[i].count > 0 &&
      TopLinkRows(clicks, limit)[i].count == Count(Urls(clicks), TopLinkRows(clicks, limit)[i].url)
    ensures forall i :: 0 <= i < |TopLinkRows(clicks, limit)| ==>
      ClickedFrom(clicks, TopLinkRows(clicks, limit)[i].url, TopLinkRows(clicks, limit)[i].platform)
    ensures SortedDesc(TopLinkRows(clicks, limit), LinkCount)
    ensures forall u, i ::
      u in Urls(clicks) && u !in LinkUrls(TopLinkRows(clicks, limit)) && 0 <= i < |TopLinkRows(clicks, limit)| ==>
        Count(Urls(clicks), u) <= TopLinkRows(clicks, limit)[i].count
    ensures limit < 0 || |Distinct(Urls(clicks))| <= limit ==>
      forall u :: u in Urls(clicks) ==> u in LinkUrls(TopLinkRows(clicks, limit))
  {
    var urls := Urls(clicks);
    var groups := GroupBy(urls, RowCount);
    GroupKeysOccur(groups, urls);
    var all := ToLinkRows(clicks, groups);
    var rows := Limit(all, limit);
    assert rows == TopLinkRows(clicks, limit);
    TopLinksFacts(urls, groups, all, rows, limit);
    LinkRowsFromClicks(clicks, groups, all, limit);
  }

  /** Every row of `getTopLinks` pairs a url with a platform some click of that
      url was made from. */
  lemma LinkRowsFromClicks(clicks: seq<Click>, groups: seq<Row<string>>, all: seq<LinkRow>, limit: int)
    requires forall i :: 0 <= i < |groups| ==> groups[i].key in Urls(clicks)
    requires all == ToLinkRows(clicks, groups)
    ensures var rows := Limit(all, limit);
      forall i :: 0 <= i < |rows| ==>
        ClickedFrom(clicks, rows[i].url, rows[i].platform)
  {
    var rows := Limit(all, limit);
    forall i | 0 <= i < |rows|
      ensures ClickedFrom(clicks, rows[i].url, rows[i].platform)
    {
      assert rows[i] == all[i];
      var p := PlatformOfUrl(clicks, groups[i].key);
      assert all[i] == LinkRow(p, groups[i].key, groups[i].count);
    }
  }

  lemma TopLinksFacts(urls: seq<string>, groups: seq<Row<string>>, all: seq<LinkRow>, rows: seq<LinkRow>, limit: int)
    requires GroupsOf(groups, urls) && SortedDesc(groups, RowCount)
    requires |all| == |groups|
    requires forall i :: 0 <= i < |groups| ==> all[i].url == groups[i].key && all[i].count == groups[i].count
    requires rows == Limit(all, limit)
    ensures |rows| == if 0 <= limit < |Distinct(urls)| then limit else |Distinct(urls)|
    ensures NoDup(LinkUrls(rows))
    ensures forall i :: 0 <= i < |rows| ==> rows[i].count > 0 && rows[i].count == Count(urls, rows[i].url)
    ensures SortedDesc(rows, LinkCount)
    ensures forall u, i :: u in urls && u !in LinkUrls(rows) && 0 <= i < |rows| ==> Count(urls, u) <= rows[i].count
    ensures limit < 0 || |Distinct(urls)| <= limit ==> forall u :: u in urls ==> u in LinkUrls(rows)
  {
    assert LinkUrls(all) == Keys(groups);
    forall i | 0 <= i < |rows| ensures rows[i].count > 0 {
      GroupCountsPositive(groups, urls, i);
    }
    LimitKeepsBest(urls, groups, all, rows, limit);
    DistinctKeysBound(groups, urls);
  }

  /** A url cut off by the limit has no more clicks than any url kept. */
  lemma LimitKeepsBest(urls: seq<string>, groups: seq<Row<string>>, all: seq<LinkRow>, rows: seq<LinkRow>, limit: int)
    requires GroupsOf(groups, urls) && SortedDesc(groups, RowCount)
    requires |all| == |groups|
    requires forall i :: 0 <= i < |groups| ==> all[i].url == groups[i].key && all[i].count == groups[i].count
    requires rows == Limit(all, limit)
    ensures forall u, i :: u in urls && u !in LinkUrls(rows) && 0 <= i < |rows| ==> Count(urls, u) <= rows[i].count
  {
    forall u, i | u in urls && u !in LinkUrls(rows) && 0 <= i < |rows| ensures Count(urls, u) <= rows[i].count {
      var k :| 0 <= k < |groups| && Keys(groups)[k] == u;
    }
  }

  /** A grouping has one row per distinct value, so no more rows than that. */
  lemma DistinctKeysBound(groups: seq<Row<string>>, urls: seq<string>)
    requires GroupsOf(groups, urls)
    ensures |groups| == |Distinct(urls)|
  {
    var d := Distinct(urls);
    NoDupSameSetSameLength(Keys(groups), d);
  }

  lemma NoDupSameSetSameLength(a: seq<string>, b: seq<string>)
    requires NoDup(a) && NoDup(b)
    requires forall x :: x in a <==> x in b
    ensures |a| == |b|
  {
    NoDupSetSize(a);
    NoDupSetSize(b);
    assert (set x | x in a) == (set x | x in b);
  }

  lemma {:induction false} NoDupSetSize(a: seq<string>)
    requires NoDup(a)
    ensures |set x | x in a| == |a|
  {
    if a != [] {
      NoDupSetSize(a[1..]);
      assert a[0] !in a[1..] by {
        forall j | 0 <= j < |a[1..]| ensures a[1..][j] != a[0] {
          assert a[1..][j] == a[j + 1];
        }
      }
      assert (set x | x in a) == (set x | x in a[1..]) + {a[0]};
    }
  }

  /** The click falls inside the window `[now - seconds, ...)`. */
  predicate InWindow(c: Click, now: Timestamp, seconds: nat) {
    c.clickedAt as int >= now as int - seconds
  }

  function ClicksSince(clicks: seq<Click>, now: Timestamp, seconds: nat): seq<Click> {
    Filter(clicks, c => InWindow(c, now, seconds))
  }

  function NegKey(r: Row<nat>): int {
    -(r.key as int)
  }

  /** `getClicksLastDays(days)`: clicks at or after `now - days`, grouped by
      date, oldest date first. */
  function ClicksLastDays(db: Db, now: Timestamp, days: nat): (rows: seq<Row<nat>>)
    ensures forall i, j :: 0 <= i < j < |rows| ==> rows[i].key < rows[j].key
    ensures forall i :: 0 <= i < |rows| ==>
      rows[i].count > 0 && rows[i].count == ClicksOnDay(ClicksSince(db.clicks, now, days * SecondsPerDay), rows[i].key)
    ensures forall c :: c in db.clicks && InWindow(c, now, days * SecondsPerDay) ==> DayOf(c.clickedAt) in Keys(rows)
    ensures forall i :: 0 <= i < |rows| ==> rows[i].key >= DayOf(if now >= days * SecondsPerDay then now - days * SecondsPerDay else 0)
    ensures RowTotal(rows) == |ClicksSince(db.clicks, now, days * SecondsPerDay)|
  {
    var window := ClicksSince(db.clicks, now, days * SecondsPerDay);
    var rows := GroupBy(Days(window), NegKey);
    TrendFacts(db, now, days, window, rows);
    rows
  }

  lemma TrendFacts(db: Db, now: Timestamp, days: nat, window: seq<Click>, rows: seq<Row<nat>>)
    requires window == ClicksSince(db.clicks, now, days * SecondsPerDay)
    requires GroupsOf(rows, Days(window)) && SortedDesc(rows, NegKey)
    ensures forall i, j :: 0 <= i < j < |rows| ==> rows[i].key < rows[j].key
    ensures forall i :: 0 <= i < |rows| ==> rows[i].count > 0
    ensures forall c :: c in db.clicks && InWindow(c, now, days * SecondsPerDay) ==> DayOf(c.clickedAt) in Keys(rows)
    ensures forall i :: 0 <= i < |rows| ==> rows[i].key >= DayOf(if now >= days * SecondsPerDay then now - days * SecondsPerDay else 0)
  {
    forall i, j | 0 <= i < j < |rows| ensures rows[i].key < rows[j].key {
      assert NegKey(rows[i]) >= NegKey(rows[j]);
      assert Keys(rows)[i] != Keys(rows)[j];
    }
    forall i | 0 <= i < |rows| ensures rows[i].count > 0 {
      GroupCountsPositive(rows, Days(window), i);
    }
    forall c | c in db.clicks && InWindow(c, now, days * SecondsPerDay) ensures DayOf(c.clickedAt) in Keys(rows) {
      assert c in window;
      var k :| 0 <= k < |window| && window[k] == c;
      assert Days(window)[k] == DayOf(c.clickedAt);
    }
    forall i | 0 <= i < |rows|
      ensures rows[i].key >= DayOf(if now >= days * SecondsPerDay then now - days * SecondsPerDay else 0)
    {
      assert Keys(rows)[i] in Keys(rows);
      var k :| 0 <= k < |window| && Days(window)[k] == rows[i].key;
      assert window[k] in window;
      DayMonotone(if now >= days * SecondsPerDay then now - days * SecondsPerDay else 0, window[k].clickedAt);
    }
  }

  lemma DayMonotone(s: nat, t: nat)
    requires s <= t
    ensures DayOf(s) <= DayOf(t)
  {
  }

  /** `getRecentClicks`: clicks in the last 24 hours. */
  function RecentClicks(db: Db, now: Timestamp): (n: nat)
    ensures n <= TotalClicks(db)
  {
    |ClicksSince(db.clicks, now, 24 * 3600)|
  }

  /** The 24-hour count equals the total of a one-day trend: `-1 days` and
      `-24 hours` name the same instant. */
  lemma RecentIsOneDayTrend(db: Db, now: Timestamp)
    ensures RowTotal(ClicksLastDays(db, now, 1)) == RecentClicks(db, now)
  {
  }

  /** Widening the window never loses a click. */
  lemma {:induction false} WiderWindowCountsMore(clicks: seq<Click>, now: Timestamp, s: nat, t: nat)
    requires s <= t
    ensures |ClicksSince(clicks, now, s)| <= |ClicksSince(clicks, now, t)|
  {
    if clicks != [] {
      WiderWindowCountsMore(clicks[1..], now, s, t);
    }
  }

  /** The dashboard summary of `getAllStats`. */
  datatype AnalyticsStats = AnalyticsStats(
    totalClicks: nat,
    clicksLast24h: nat,
    clicksByPlatform: seq<Row<string>>,
    trend: seq<Row<nat>>,
    topLinks: seq<LinkRow>)

  /** `getAllStats`: a seven-day trend and the five busiest links. */
  function AllStats(db: Db, now: Timestamp): (s: AnalyticsStats)
    ensures s.totalClicks == |db.clicks|
    ensures s.clicksLast24h <= s.totalClicks
    ensures RowTotal(s.clicksByPlatform) == s.totalClicks
    ensures s.clicksLast24h <= RowTotal(s.trend) <= s.totalClicks
    ensures |s.topLinks| <= 5
    ensures forall i :: 0 <= i < |s.trend| ==> s.trend[i].key + 7 >= DayOf(now)
    ensures s.clicksLast24h == RecentClicks(db, now)
    ensures s.clicksByPlatform == ClicksByPlatform(db)
    ensures s.trend == ClicksLastDays(db, now, 7)
    ensures s.topLinks == TopLinks(db, 5)
  {
    var s := AnalyticsStats(TotalClicks(db), RecentClicks(db, now), ClicksByPlatform(db),
      ClicksLastDays(db, now, 7), TopLinks(db, 5));
    WiderWindowCountsMore(db.clicks, now, 24 * 3600, 7 * SecondsPerDay);
    s
  }
}
