/**
 `POST /api/analytics/track` (app/api/analytics/track/route.ts): checks the
 platform and url, derives a client IP and a short hash of it, and hands the
 click to `registerClick`.

 SHA-256 is the `sha256` parameter; it is only assumed to yield 32 bytes. The
 clock is `now`, and how far SQLite gets with the two statements of
 `registerClick` is the parameter `outcome`.
 */
module TrackRoute {
  import opened Text
  import opened Hex
  import opened ClickStore

  /** A SHA-256 digest: 32 bytes. */
  type Digest = d: seq<byte> | |d| == 32 witness seq(32, _ => 0)

  type Sha256 = string -> Digest

  /** The request body: not JSON at all, or an object whose `platform` and
      `url` are strings or absent. */
  datatype Body = NotJson | Json(platform: Option<string>, url: Option<string>)

  datatype Request = Request(
    body: Body,
    forwardedFor: Option<string>,
    ip: Option<string>,
    userAgent: Option<string>,
    referer: Option<string>)

  datatype Response =
    | Tracked(clickId: nat)
    | BadRequest(error: string)
    | ServerError(error: string)

  /** How far the two auto-committed statements of `registerClick` get: the
      INSERT into `clicks` throws, or it commits and the `daily_stats` upsert
      throws, or both commit. */
  datatype WriteOutcome = InsertFails | UpsertFails | Written

  predicate Present(v: Option<string>) {
    v.Some? && v.value != []
  }

  /** `forwarded?.split(',')[0] || request.ip || 'unknown'`. */
  function ClientIp(forwardedFor: Option<string>, ip: Option<string>): (r: string)
    ensures forwardedFor.Some? && BeforeFirst(forwardedFor.value, ',') != [] ==>
      r == BeforeFirst(forwardedFor.value, ',')
    ensures (forwardedFor.None? || BeforeFirst(forwardedFor.value, ',') == []) && Present(ip) ==>
      r == ip.value
    ensures (forwardedFor.None? || BeforeFirst(forwardedFor.value, ',') == []) && !Present(ip) ==>
      r == "unknown"
    ensures r != []
  {
    if forwardedFor.Some? && BeforeFirst(forwardedFor.value, ',') != [] then BeforeFirst(forwardedFor.value, ',')
    else if Present(ip) then ip.value
    else "unknown"
  }

  /** Only the first address of a proxy chain is used. */
  lemma FirstForwardedAddress(first: string, rest: string, ip: Option<string>)
    requires first != [] && ',' !in first
    ensures ClientIp(Some(first + "," + rest), ip) == first
  {
    var s := first + "," + rest;
    assert s[|first|] == ',';
    assert BeforeFirst(s, ',') <= s;
    var b := BeforeFirst(s, ',');
    assert b == s[..|b|] == first;
  }

  const IpHashLength: nat := 16

  /** The first 16 hex characters of the SHA-256 digest of the IP. */
  function IpHash(ip: string, sha256: Sha256): (h: string)
    ensures |h| == IpHashLength
    ensures IsHexString(h)
    ensures h <= ToHex(sha256(ip))
  {
    ToHex(sha256(ip))[..IpHashLength]
  }

  /** `header || ''`. */
  function OrEmpty(v: Option<string>): (r: string)
    ensures Present(v) ==> r == v.value
    ensures !Present(v) ==> r == []
  {
    if Present(v) then v.value else []
  }

  /** The argument the route passes to `registerClick`. */
  function TrackInput(req: Request, sha256: Sha256): (input: ClickInput)
    requires req.body.Json? && Present(req.body.platform) && Present(req.body.url)
    ensures input.platform == req.body.platform.value && input.url == req.body.url.value
    ensures input.userAgent == Some(OrEmpty(req.userAgent))
    ensures input.referrer == Some(OrEmpty(req.referer))
    ensures input.ipHash == Some(IpHash(ClientIp(req.forwardedFor, req.ip), sha256))
  {
    ClickInput(
      req.body.platform.value,
      req.body.url.value,
      Some(OrEmpty(req.userAgent)),
      Some(IpHash(ClientIp(req.forwardedFor, req.ip), sha256)),
      Some(OrEmpty(req.referer)))
  }

  /** The route handler. A throw anywhere inside the `try` becomes a 500;
      one thrown by the upsert comes after the click was stored. */
  function Post(db: Db, req: Request, sha256: Sha256, now: Timestamp, outcome: WriteOutcome): (r: (Db, Response))
    ensures req.body.NotJson? ==> r == (db, ServerError("Failed to track click"))
    ensures req.body.Json? && (!Present(req.body.platform) || !Present(req.body.url)) ==>
      r == (db, BadRequest("Platform and URL are required"))
    ensures req.body.Json? && Present(req.body.platform) && Present(req.body.url) && outcome.InsertFails? ==>
      r == (db, ServerError("Failed to track click"))
    ensures req.body.Json? && Present(req.body.platform) && Present(req.body.url) && outcome.UpsertFails? ==>
      r == (InsertClick(db, TrackInput(req, sha256), now).0, ServerError("Failed to track click"))
    ensures r.1.Tracked? <==> req.body.Json? && Present(req.body.platform) && Present(req.body.url) && outcome.Written?
    ensures r.1.Tracked? ==>
      var (db', id) := RegisterClick(db, TrackInput(req, sha256), now);
      r.0 == db' && r.1.clickId == id
  {
    if req.body.NotJson? then (db, ServerError("Failed to track click"))
    else if !Present(req.body.platform) || !Present(req.body.url) then (db, BadRequest("Platform and URL are required"))
    else match outcome
      case InsertFails => (db, ServerError("Failed to track click"))
      case UpsertFails => (InsertClick(db, TrackInput(req, sha256), now).0, ServerError("Failed to track click"))
      case Written =>
        var (db', id) := RegisterClick(db, TrackInput(req, sha256), now);
        (db', Tracked(id))
  }

  /** A tracked click is stored with its platform, url and a 16-character IP
      hash; a missing user agent or referer is stored as NULL; the total grows
      by one and the returned id is the new row's. */
  lemma TrackedClickStored(db: Db, req: Request, sha256: Sha256, now: Timestamp)
    requires req.body.Json? && Present(req.body.platform) && Present(req.body.url)
    ensures var (db', res) := Post(db, req, sha256, now, Written);
      var c := db'.clicks[|db.clicks|];
      && res.Tracked?
      && TotalClicks(db') == TotalClicks(db) + 1
      && c.id == res.clickId
      && c.platform == req.body.platform.value && c.url == req.body.url.value
      && c.ipHash.Some? && |c.ipHash.value| == IpHashLength
      && (c.userAgent.None? <==> !Present(req.userAgent))
      && (c.referrer.None? <==> !Present(req.referer))
  {
    RegisterIncrementsTotal(db, TrackInput(req, sha256), now);
  }

  /** A rejected request registers nothing, except when the upsert is what
      failed: then the click stays stored although the answer is a 500. */
  lemma RejectedLeavesDb(db: Db, req: Request, sha256: Sha256, now: Timestamp, outcome: WriteOutcome)
    requires !Post(db, req, sha256, now, outcome).1.Tracked?
    ensures var db' := Post(db, req, sha256, now, outcome).0;
      || db' == db
      || (outcome.UpsertFails? && db' == InsertClick(db, TrackInput(req, sha256), now).0)
    ensures Post(db, req, sha256, now, outcome).0 != db ==>
      TotalClicks(Post(db, req, sha256, now, outcome).0) == TotalClicks(db) + 1
  {
  }

  /** A 500 caused by the upsert leaves a consistent database inconsistent:
      one more click is stored than `daily_stats` counts. */
  lemma FailedUpsertBreaksValid(db: Db, req: Request, sha256: Sha256, now: Timestamp)
    requires Valid(db)
    requires req.body.Json? && Present(req.body.platform) && Present(req.body.url)
    ensures var (db', res) := Post(db, req, sha256, now, UpsertFails);
      && res.ServerError?
      && TotalClicks(db') == TotalClicks(db) + 1
      && !Valid(db')
  {
    InsertAloneBreaksValid(db, TrackInput(req, sha256), now);
  }
}
