/**
 The JSON click log of app/api/analytics/click/route.ts: `POST` validates a
 platform and appends a click event to data/analytics.json; `GET` folds the log
 into per-platform and per-day counts and returns the newest 50 events.

 The file system is a `StoredFile` value handed in and handed back; whether
 `writeFile` succeeds is the `writeOk` parameter. `new Date().toISOString()`
 is a parameter at each place it is read: `POST` reads the clock once for the
 event's `timestamp` (`clickIso`) and again for `lastUpdated` (`savedIso`).
 */
module ClickLog {
  import opened Text
  import opened Tally

  datatype ClickEvent = ClickEvent(
    platform: string,
    timestamp: string,
    userAgent: string,
    referrer: string,
    ip: Option<string>)

  /** What `readAnalytics` finds on disk. A document whose `clicks` field is
      missing parses, but every later use of `clicks` throws. */
  datatype StoredFile =
    | Missing
    | Unparseable
    | Document(clicks: Option<seq<ClickEvent>>, lastUpdated: string)

  /** `readAnalytics`: a file that cannot be read or parsed counts as an empty
      log last updated now. */
  function ReadAnalytics(file: StoredFile, nowIso: string): (d: StoredFile)
    ensures d.Document?
    ensures file.Document? ==> d == file
    ensures !file.Document? ==> d.clicks == Some([]) && d.lastUpdated == nowIso
  {
    if file.Document? then file else Document(Some([]), nowIso)
  }

  /** The request body: either not JSON (so `request.json()` throws) or an
      object whose `platform` is a string or absent. */
  datatype RequestBody = NotJson | Json(platform: Option<string>)

  /** JavaScript truthiness of an optional string. */
  predicate Truthy(v: Option<string>) {
    v.Some? && v.value != []
  }

  datatype Response =
    | Tracked(totalClicks: nat)
    | Failure(status: nat, error: string)
    | Stats(
        totalClicks: nat,
        lastUpdated: string,
        platformStats: map<string, nat>,
        dailyStats: map<string, nat>,
        recentClicks: seq<ClickEvent>)

  /** `POST`: appends one click event and reports the new length. Every failure
      leaves the file as it was. `readAnalytics` takes its own, earlier reading
      for the fallback log; `POST` overwrites that `lastUpdated` before
      writing, so the model stamps the fallback with `clickIso`. */
  function Post(file: StoredFile, body: RequestBody, userAgent: Option<string>, referer: Option<string>,
                ip: Option<string>, clickIso: string, savedIso: string, writeOk: bool): (r: (StoredFile, Response))
    ensures r.1.Failure? ==> r.0 == file
    ensures body.NotJson? ==> r.1 == Failure(500, "Failed to track click")
    ensures body.Json? && !Truthy(body.platform) ==> r.1 == Failure(400, "Platform required")
    ensures r.1.Tracked? <==>
      body.Json? && Truthy(body.platform) && ReadAnalytics(file, clickIso).clicks.Some? && writeOk
    ensures r.1.Tracked? ==>
      var before := ReadAnalytics(file, clickIso).clicks.value;
      && r.0.Document? && r.0.clicks.Some? && r.0.lastUpdated == savedIso
      && var after := r.0.clicks.value;
      && |after| == |before| + 1
      && after[..|before|] == before
      && after[|before|].platform == body.platform.value
      && after[|before|].timestamp == clickIso
      && after[|before|].userAgent == OrElse(userAgent, "unknown")
      && after[|before|].referrer == OrElse(referer, "direct")
      && after[|before|].ip == (if Truthy(ip) then ip else None)
      && r.1.totalClicks == |after|
  {
    if body.NotJson? then (file, Failure(500, "Failed to track click"))
    else if !Truthy(body.platform) then (file, Failure(400, "Platform required"))
    else
      var data := ReadAnalytics(file, clickIso);
      if data.clicks.None? || !writeOk then (file, Failure(500, "Failed to track click"))
      else
        var click := ClickEvent(body.platform.value, clickIso, OrElse(userAgent, "unknown"),
                                OrElse(referer, "direct"), if Truthy(ip) then ip else None);
        var clicks := data.clicks.value + [click];
        assert clicks[..|data.clicks.value|] == data.clicks.value;
        (Document(Some(clicks), savedIso), Tracked(|clicks|))
  }

  /** A rejected POST stores nothing; an accepted one stores exactly one more
      event, and a second accepted POST applied after it one more again. */
  lemma PostGrowsByOne(file: StoredFile, body: RequestBody, userAgent: Option<string>, referer: Option<string>,
                       ip: Option<string>, now1: string, saved1: string, now2: string, saved2: string)
    requires Post(file, body, userAgent, referer, ip, now1, saved1, true).1.Tracked?
    ensures var (file', res) := Post(file, body, userAgent, referer, ip, now1, saved1, true);
      var (file'', res') := Post(file', body, userAgent, referer, ip, now2, saved2, true);
      res'.Tracked? && res'.totalClicks == res.totalClicks + 1 && file''.clicks.value[..res.totalClicks] == file'.clicks.value
  {
  }

  /** One POST's inputs: its body, headers and address, its two clock
      readings, and whether its write succeeds. */
  datatype PostRequest = PostRequest(
    body: RequestBody,
    userAgent: Option<string>,
    referer: Option<string>,
    ip: Option<string>,
    clickIso: string,
    savedIso: string,
    writeOk: bool)

  function PostOf(file: StoredFile, q: PostRequest): (StoredFile, Response) {
    Post(file, q.body, q.userAgent, q.referer, q.ip, q.clickIso, q.savedIso, q.writeOk)
  }

  /** The number of events a POST reading `file` finds. */
  function EventsRead(file: StoredFile): nat {
    match ReadAnalytics(file, "").clicks
    case Some(cs) => |cs|
    case None => 0
  }

  /** Whether a POST on `file` is accepted: a JSON body with a truthy
      platform, a usable log, and a write that succeeds. */
  predicate Accepted(file: StoredFile, q: PostRequest) {
    q.body.Json? && Truthy(q.body.platform) && ReadAnalytics(file, "").clicks.Some? && q.writeOk
  }

  /** Two POSTs as the handler lets them run: nothing serialises the read of
      the log and the later write of the whole log, so with the `await`s
      interleaved as read a, read b, write a, write b both requests push
      their event onto a copy of the same log, and b's write replaces a's.
      A request that stops before writing leaves the other's write in place. */
  function OverlappingPosts(file: StoredFile, a: PostRequest, b: PostRequest): (r: (StoredFile, Response, Response))
    ensures r.1 == PostOf(file, a).1 && r.2 == PostOf(file, b).1
    ensures r.1.Tracked? && r.2.Tracked? ==>
      && r.1.totalClicks == r.2.totalClicks == EventsRead(file) + 1
      && r.0.Document? && r.0.clicks.Some?
      && |r.0.clicks.value| == EventsRead(file) + 1
    ensures r.2.Tracked? ==> r.0 == PostOf(file, b).0
    ensures !r.2.Tracked? ==> r.0 == PostOf(file, a).0
  {
    var (fa, ra) := PostOf(file, a);
    var (fb, rb) := PostOf(file, b);
    (if rb.Tracked? then fb else fa, ra, rb)
  }

  /** The same two POSTs applied one after the other, as the route's
      single-request reading intends. */
  function SerialisedPosts(file: StoredFile, a: PostRequest, b: PostRequest): (r: (StoredFile, Response, Response))
    ensures r.1 == PostOf(file, a).1
    ensures Accepted(file, a) && Accepted(file, b) ==>
      && r.1.Tracked? && r.2.Tracked?
      && r.1.totalClicks == EventsRead(file) + 1
      && r.2.totalClicks == EventsRead(file) + 2
      && r.0.Document? && r.0.clicks.Some?
      && |r.0.clicks.value| == EventsRead(file) + 2
      && r.0.clicks.value[..EventsRead(file)] == ReadAnalytics(file, "").clicks.value
      && r.0.clicks.value[EventsRead(file)].timestamp == a.clickIso
      && r.0.clicks.value[EventsRead(file) + 1].timestamp == b.clickIso
  {
    var (fa, ra) := PostOf(file, a);
    var (fb, rb) := PostOf(fa, b);
    (fb, ra, rb)
  }

  /** Two accepted POSTs that overlap both answer with the same total, and
      the log keeps only one of the two events; applied one after the other
      they keep both. */
  lemma OverlapLosesClick(file: StoredFile, a: PostRequest, b: PostRequest)
    requires PostOf(file, a).1.Tracked? && PostOf(file, b).1.Tracked?
    ensures var (f, ra, rb) := OverlappingPosts(file, a, b);
      && ra.totalClicks == rb.totalClicks
      && f.Document? && f.clicks.Some?
      && |f.clicks.value| == EventsRead(file) + 1
      && f.clicks.value[EventsRead(file)].timestamp == b.clickIso
    ensures var (f, ra, rb) := SerialisedPosts(file, a, b);
      && rb.totalClicks == ra.totalClicks + 1
      && f.Document? && f.clicks.Some?
      && |f.clicks.value| == EventsRead(file) + 2
      && f.clicks.value[EventsRead(file)].timestamp == a.clickIso
      && f.clicks.value[EventsRead(file) + 1].timestamp == b.clickIso
  {
  }

  function Platforms(clicks: seq<ClickEvent>): (ps: seq<string>)
    ensures |ps| == |clicks|
    ensures forall i :: 0 <= i < |clicks| ==> ps[i] == clicks[i].platform
  {
    Map(clicks, (c: ClickEvent) => c.platform)
  }

  /** `timestamp.split('T')[0]`: the calendar date of an ISO timestamp. */
  function DateOf(timestamp: string): string {
    BeforeFirst(timestamp, 'T')
  }

  function Dates(clicks: seq<ClickEvent>): (ds: seq<string>)
    ensures |ds| == |clicks|
    ensures forall i :: 0 <= i < |clicks| ==> ds[i] == DateOf(clicks[i].timestamp)
  {
    Map(clicks, (c: ClickEvent) => DateOf(c.timestamp))
  }

  /** `s.slice(-n)` for `n > 0`: the last `n` elements, or all of them when
      there are fewer. (`slice(-0)` would return the whole array; the route
      only asks for 50.) */
  function LastN<T>(s: seq<T>, n: nat): (r: seq<T>)
    ensures |r| == if |s| < n then |s| else n
    ensures s[..|s| - |r|] + r == s
  {
    if |s| <= n then s else s[|s| - n..]
  }

  const RecentLimit: nat := 50

  /** The route's `for (const click of data.clicks)` loop, filling both
      counters in one pass. */
  method CountClicks(clicks: seq<ClickEvent>) returns (platformStats: map<string, nat>, dailyStats: map<string, nat>)
    ensures platformStats == Histogram(Platforms(clicks))
    ensures dailyStats == Histogram(Dates(clicks))
  {
    ghost var platforms, dates := Platforms(clicks), Dates(clicks);
    platformStats, dailyStats := map[], map[];
    var i := 0;
    assert platforms[..0] == [] && dates[..0] == [];
    while i < |clicks|
      invariant 0 <= i <= |clicks|
      invariant platformStats == Histogram(platforms[..i])
      invariant dailyStats == Histogram(dates[..i])
    {
      var click := clicks[i];
      HistogramPrefixStep(platforms, i);
      HistogramPrefixStep(dates, i);
      platformStats := Tick(platformStats, click.platform);
      dailyStats := Tick(dailyStats, DateOf(click.timestamp));
      i := i + 1;
    }
    assert platforms[..i] == platforms && dates[..i] == dates;
  }

  /** The per-platform counts: one key per platform clicked, each the number
      of clicks on it, together accounting for every click. */
  ghost predicate PlatformCounts(stats: map<string, nat>, clicks: seq<ClickEvent>) {
    && (forall p :: p in stats <==> p in Platforms(clicks))
    && (forall p :: p in stats ==> stats[p] == Count(Platforms(clicks), p) >= 1)
    && SumValues(stats) == |clicks|
  }

  /** The per-day counts, keyed by the date part of the timestamp. */
  ghost predicate DailyCounts(stats: map<string, nat>, clicks: seq<ClickEvent>) {
    && (forall d :: d in stats <==> d in Dates(clicks))
    && (forall d :: d in stats ==> stats[d] == Count(Dates(clicks), d) >= 1)
    && SumValues(stats) == |clicks|
  }

  lemma CountsFacts(clicks: seq<ClickEvent>)
    ensures PlatformCounts(Histogram(Platforms(clicks)), clicks)
    ensures DailyCounts(Histogram(Dates(clicks)), clicks)
  {
    HistogramSum(Platforms(clicks));
    HistogramSum(Dates(clicks));
  }

  /** `GET`: the totals and the newest events. */
  method Get(file: StoredFile, nowIso: string) returns (r: Response)
    ensures var data := ReadAnalytics(file, nowIso);
      data.clicks.None? ==> r == Failure(500, "Failed to read analytics")
    ensures var data := ReadAnalytics(file, nowIso);
      data.clicks.Some? ==>
        var clicks := data.clicks.value;
        && r.Stats?
        && r.totalClicks == |clicks|
        && r.lastUpdated == data.lastUpdated
        && PlatformCounts(r.platformStats, clicks)
        && DailyCounts(r.dailyStats, clicks)
        && |r.recentClicks| == (if |clicks| < RecentLimit then |clicks| else RecentLimit)
        && clicks[..|clicks| - |r.recentClicks|] + r.recentClicks == clicks
  {
    var data := ReadAnalytics(file, nowIso);
    if data.clicks.None? {
      return Failure(500, "Failed to read analytics");
    }
    var clicks := data.clicks.value;
    var platformStats, dailyStats := CountClicks(clicks);
    CountsFacts(clicks);
    r := Stats(|clicks|, data.lastUpdated, platformStats, dailyStats, LastN(clicks, RecentLimit));
  }

  /** A log that cannot be read reports nothing rather than failing. */
  method GetUnreadableIsEmpty(file: StoredFile, nowIso: string) returns (r: Response)
    requires !file.Document?
    ensures r == Stats(0, nowIso, map[], map[], [])
  {
    r := Get(file, nowIso);
    assert r.platformStats.Keys == {} && r.dailyStats.Keys == {};
  }

  /* ---------- The route's counting as JavaScript evaluates it ---------- */

  /** A property value read from a plain object: `undefined`, a number, or
      anything else (a function inherited from `Object.prototype`, or the
      string `(fn || 0) + 1` makes of it). */
  datatype JsValue = Undefined | Num(n: nat) | NonNumber

  /** Names every `{}` inherits from `Object.prototype`. */
  const ObjectPrototypeNames: set<string> := {
    "constructor", "__proto__", "hasOwnProperty", "isPrototypeOf", "propertyIsEnumerable",
    "toString", "valueOf", "toLocaleString",
    "__defineGetter__", "__defineSetter__", "__lookupGetter__", "__lookupSetter__"
  }

  /** `obj[k]` on an object literal: own properties first, then the prototype. */
  function Lookup(obj: map<string, JsValue>, k: string): JsValue {
    if k in obj then obj[k] else if k in ObjectPrototypeNames then NonNumber else Undefined
  }

  /** `obj[k] = v`: assigning a primitive to `__proto__` is ignored. */
  function Assign(obj: map<string, JsValue>, k: string, v: JsValue): map<string, JsValue> {
    if k == "__proto__" then obj else obj[k := v]
  }

  /** `(v || 0) + 1`. */
  function Bump(v: JsValue): JsValue {
    match v
    case Undefined => Num(1)
    case Num(n) => Num(n + 1)
    case NonNumber => NonNumber
  }

  /** The route's fold as written, over a `Record<string, number>` that is
      really a plain object. */
  function RecordCount(keys: seq<string>): (obj: map<string, JsValue>)
    ensures forall k :: k in obj ==> k in keys
  {
    if keys == [] then map[]
    else
      var obj := RecordCount(keys[..|keys| - 1]);
      var k := keys[|keys| - 1];
      Assign(obj, k, Bump(Lookup(obj, k)))
  }

  /** Every count of a histogram as a JavaScript number. */
  function AsNumbers(m: map<string, nat>): (obj: map<string, JsValue>)
    ensures obj.Keys == m.Keys
    ensures forall k :: k in m ==> obj[k] == Num(m[k])
  {
    map k | k in m :: Num(m[k])
  }

  /** While no key names an `Object.prototype` member, the object fold and the
      map fold agree. */
  lemma {:induction false} RecordCountAgrees(keys: seq<string>)
    requires forall i :: 0 <= i < |keys| ==> keys[i] !in ObjectPrototypeNames
    ensures RecordCount(keys) == AsNumbers(Histogram(keys))
  {
    if keys != [] {
      var init, k := keys[..|keys| - 1], keys[|keys| - 1];
      RecordCountAgrees(init);
      assert init + [k] == keys;
      HistogramSnoc(init, k);
      BumpAgrees(Histogram(init), k);
    }
  }

  /** One step of both folds on an ordinary key. */
  lemma BumpAgrees(m: map<string, nat>, k: string)
    requires k !in ObjectPrototypeNames
    ensures var obj := AsNumbers(m);
      Assign(obj, k, Bump(Lookup(obj, k))) == AsNumbers(Tick(m, k))
  {
  }

  /** A click on platform "__proto__" vanishes from `platformStats`. */
  lemma ProtoPlatformVanishes()
    ensures "__proto__" !in RecordCount(["__proto__"])
    ensures Histogram(["__proto__"]) == map["__proto__" := 1]
  {
    assert ["__proto__"][..0] == [];
  }

  /** A click on platform "constructor" gets a count that is not a number. */
  lemma InheritedNameIsNotACount()
    ensures RecordCount(["constructor"])["constructor"] == NonNumber
    ensures Histogram(["constructor"]) == map["constructor" := 1]
  {
    assert ["constructor"][..0] == [];
  }
}
