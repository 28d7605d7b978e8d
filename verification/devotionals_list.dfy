/**
 The devotionals list of app/admin/devotionals/page.tsx: the query string sent
 to the API for the status and "show deleted" controls, the handling of the
 reply, the client-side search filter, the soft delete and restore requests,
 and the count of deleted rows.
 */
module DevotionalsList {
  import opened Text
  import opened Tally

  datatype Status = Draft | Published

  datatype Devotional = Devotional(
    id: nat,
    title: string,
    content: string,
    date: string,
    status: Status,
    createdAt: string,
    updatedAt: string,
    deletedAt: Option<string>)

  datatype StatusFilter = All | Only(status: Status)

  function StatusName(s: Status): string {
    match s
    case Draft => "draft"
    case Published => "published"
  }

  /** The `URLSearchParams` built by `fetchDevotionals`, in append order. */
  function QueryParams(filter: StatusFilter, showDeleted: bool): (ps: seq<(string, string)>)
    ensures |ps| == (if filter.Only? then 1 else 0) + (if showDeleted then 1 else 0)
    ensures filter.Only? ==> ps[0] == ("status", StatusName(filter.status))
    ensures showDeleted ==> ps[|ps| - 1] == ("includeDeleted", "true")
  {
    (if filter.Only? then [("status", StatusName(filter.status))] else [])
    + (if showDeleted then [("includeDeleted", "true")] else [])
  }

  predicate HasKey(ps: seq<(string, string)>, key: string) {
    exists k :: 0 <= k < |ps| && ps[k].0 == key
  }

  /** The status parameter is sent exactly when a status is chosen, and
      `includeDeleted` exactly when deleted rows are shown. */
  lemma QueryParamsKeys(filter: StatusFilter, showDeleted: bool)
    ensures HasKey(QueryParams(filter, showDeleted), "status") <==> filter.Only?
    ensures HasKey(QueryParams(filter, showDeleted), "includeDeleted") <==> showDeleted
  {
    var ps := QueryParams(filter, showDeleted);
    assert "status" != "includeDeleted";
    if filter.Only? {
      assert ps[0].0 == "status";
    }
    if showDeleted {
      assert ps[|ps| - 1].0 == "includeDeleted";
    }
  }

  /** `params.toString()`: `key=value` pairs joined by `&`. The keys and
      values here need no percent-encoding. */
  function QueryString(ps: seq<(string, string)>): string {
    if ps == [] then []
    else if |ps| == 1 then ps[0].0 + "=" + ps[0].1
    else ps[0].0 + "=" + ps[0].1 + "&" + QueryString(ps[1..])
  }

  const ListPath: string := "/api/admin/devotionals"

  /** The URL `fetchDevotionals` requests. */
  function ListUrl(filter: StatusFilter, showDeleted: bool): (u: string)
    ensures ListPath + "?" <= u
    ensures u == ListPath + "?" <==> filter == All && !showDeleted
  {
    ListUrlQuery(filter, showDeleted);
    ListPath + "?" + QueryString(QueryParams(filter, showDeleted))
  }

  /** The query string is empty exactly when no parameter is sent. */
  lemma ListUrlQuery(filter: StatusFilter, showDeleted: bool)
    ensures QueryString(QueryParams(filter, showDeleted)) == [] <==> filter == All && !showDeleted
  {
    var ps := QueryParams(filter, showDeleted);
    if ps != [] {
      assert QueryString(ps)[..|ps[0].0|] == ps[0].0;
    }
  }

  /** With neither control set the query string is empty. */
  lemma ListUrlDefault()
    ensures ListUrl(All, false) == ListPath + "?"
  {
    assert QueryParams(All, false) == [];
  }

  /** "Show deleted" alone adds one parameter. */
  lemma ListUrlDeletedOnly()
    ensures ListUrl(All, true) == ListPath + "?includeDeleted=true"
  {
    var ps := [("includeDeleted", "true")];
    assert QueryParams(All, true) == ps;
    assert "?" + ("includeDeleted" + "=" + "true") == "?includeDeleted=true";
  }

  /** A status alone is sent as `status=<name>`. */
  lemma ListUrlStatusOnly(st: Status)
    ensures ListUrl(Only(st), false) == ListPath + "?status=" + StatusName(st)
  {
    var ps := [("status", StatusName(st))];
    assert QueryParams(Only(st), false) == ps;
    assert "?" + "status" + "=" == "?status=";
    Associate4(ListPath, "?", "status" + "=", StatusName(st));
  }

  lemma QueryStringPair(a: (string, string), b: (string, string))
    ensures QueryString([a, b]) == a.0 + "=" + a.1 + "&" + (b.0 + "=" + b.1)
  {
    assert [a, b][1..] == [b];
  }

  /** Both controls set: the status comes first. */
  lemma ListUrlBoth(st: Status)
    ensures ListUrl(Only(st), true) == ListPath + "?status=" + StatusName(st) + "&includeDeleted=true"
  {
    var name := StatusName(st);
    var q := QueryString(QueryParams(Only(st), true));
    QueryBoth(st);
    assert ListUrl(Only(st), true) == ListPath + "?" + q;
    Associate4(ListPath, "?", "status=" + name, "&includeDeleted=true");
    assert "?" + ("status=" + name) == "?status=" + name;
  }

  lemma QueryBoth(st: Status)
    ensures QueryString(QueryParams(Only(st), true)) == "status=" + StatusName(st) + "&includeDeleted=true"
  {
    var a, b := ("status", StatusName(st)), ("includeDeleted", "true");
    assert QueryParams(Only(st), true) == [a, b];
    QueryStringPair(a, b);
    assert "status" + "=" == "status=";
    assert "&" + ("includeDeleted" + "=" + "true") == "&includeDeleted=true";
  }

  lemma Associate4(a: string, b: string, c: string, d: string)
    ensures a + b + (c + d) == a + (b + c) + d
  {
  }

  /** The answer to the list request: no answer at all, a body that is not
      JSON, or a status and the body's `devotionals` field. */
  datatype ListReply =
    | NetworkError
    | NotJson(status: nat)
    | Reply(status: nat, devotionals: Option<seq<Devotional>>)

  datatype ListState = ListState(devotionals: seq<Devotional>, error: Option<string>, redirect: Option<string>)

  const LoadError: string := "Error al cargar los devocionales"
  const ForbiddenError: string := "No tienes permisos de administrador"

  predicate IsOk(status: nat) {
    200 <= status < 300
  }

  /** The reply handling of `fetchDevotionals`. */
  function ApplyListReply(st: ListState, reply: ListReply): (st': ListState)
    ensures reply.Reply? && IsOk(reply.status) ==>
      st' == st.(devotionals := if reply.devotionals.Some? then reply.devotionals.value else [])
    ensures reply.Reply? && reply.status == 401 ==> st' == st.(redirect := Some("/login"))
    ensures reply.Reply? && reply.status == 403 ==> st' == st.(error := Some(ForbiddenError))
    ensures reply.NotJson? && reply.status == 401 ==> st' == st.(redirect := Some("/login"))
    ensures reply.NotJson? && reply.status == 403 ==> st' == st.(error := Some(ForbiddenError))
    ensures reply.NetworkError? || (reply.NotJson? && IsOk(reply.status)) ==>
      st' == st.(error := Some(LoadError))
    ensures !reply.NetworkError? && !IsOk(reply.status) && reply.status != 401 && reply.status != 403 ==>
      st' == st.(error := Some(LoadError))
  {
    match reply
    case NetworkError => st.(error := Some(LoadError))
    case NotJson(status) =>
      if status == 401 then st.(redirect := Some("/login"))
      else if status == 403 then st.(error := Some(ForbiddenError))
      else st.(error := Some(LoadError))
    case Reply(status, devs) =>
      if IsOk(status) then st.(devotionals := if devs.Some? then devs.value else [])
      else if status == 401 then st.(redirect := Some("/login"))
      else if status == 403 then st.(error := Some(ForbiddenError))
      else st.(error := Some(LoadError))
  }

  /** Only a successful JSON reply replaces the list, and a reply never both
      redirects and shows an error. */
  lemma ListReplyEffects(st: ListState, reply: ListReply)
    requires st.error.None? && st.redirect.None?
    ensures var st' := ApplyListReply(st, reply);
      && (st'.devotionals != st.devotionals ==> reply.Reply? && IsOk(reply.status))
      && !(st'.error.Some? && st'.redirect.Some?)
      && (st'.redirect.Some? <==> !reply.NetworkError? && reply.status == 401)
  {
  }

  /** The search test: the lower-cased query inside the lower-cased title or
      content. */
  predicate MatchesSearch(d: Devotional, query: string) {
    Includes(ToLower(d.title), ToLower(query)) || Includes(ToLower(d.content), ToLower(query))
  }

  /** `filteredDevotionals`. */
  function FilterDevotionals(devs: seq<Devotional>, query: string): (r: seq<Devotional>)
    ensures |r| <= |devs|
    ensures forall d :: d in r <==> d in devs && MatchesSearch(d, query)
  {
    Filter(devs, d => MatchesSearch(d, query))
  }

  /** The filtered list keeps the fetched order. */
  lemma FilterKeepsOrder(devs: seq<Devotional>, query: string)
    ensures IsSubsequence(FilterDevotionals(devs, query), devs)
  {
    FilterIsSubsequence(devs, d => MatchesSearch(d, query));
  }

  /** An empty search box shows everything. */
  lemma EmptySearchKeepsAll(devs: seq<Devotional>)
    ensures FilterDevotionals(devs, []) == devs
  {
    forall d ensures MatchesSearch(d, []) {
      IncludesEmpty(ToLower(d.title));
    }
    FilterAll(devs, d => MatchesSearch(d, []));
  }

  /** The search ignores the case of ASCII letters on both sides. */
  lemma SearchIgnoresCase(d: Devotional, query: string)
    ensures MatchesSearch(d, query) <==> MatchesSearch(d, ToLower(query))
  {
    var q := ToLower(query);
    forall i | 0 <= i < |q| ensures LowerChar(q[i]) == q[i] {
      LowerCharIdempotent(query[i]);
    }
    assert ToLower(q) == q;
  }

  lemma LowerCharIdempotent(c: char)
    ensures LowerChar(LowerChar(c)) == LowerChar(c)
  {
  }

  /** `deleted_at` as JavaScript tests it: null and "" are both falsy. */
  predicate IsDeleted(d: Devotional) {
    d.deletedAt.Some? && d.deletedAt.value != []
  }

  /** `devotionals.filter((d) => d.deleted_at).length`. */
  function DeletedCount(devs: seq<Devotional>): (n: nat)
    ensures n <= |devs|
    ensures n == |Filter(devs, IsDeleted)|
  {
    CountWhere(devs, IsDeleted)
  }

  /** The count is zero exactly when no row is deleted. */
  lemma DeletedCountZero(devs: seq<Devotional>)
    ensures DeletedCount(devs) == 0 <==> forall k :: 0 <= k < |devs| ==> !IsDeleted(devs[k])
  {
    var r := Filter(devs, IsDeleted);
    if r != [] {
      assert r[0] in r;
    }
    if k :| 0 <= k < |devs| && IsDeleted(devs[k]) {
      assert devs[k] in r;
    }
  }

  /** When timestamps are never empty strings, the count is the number of rows
      whose `deleted_at` is not null. */
  lemma DeletedCountIsNonNull(devs: seq<Devotional>)
    requires forall k :: 0 <= k < |devs| ==> devs[k].deletedAt != Some([])
    ensures DeletedCount(devs) == CountWhere(devs, (d: Devotional) => d.deletedAt.Some?)
  {
    SameFilter(devs, IsDeleted, (d: Devotional) => d.deletedAt.Some?);
  }

  lemma {:induction false} SameFilter(devs: seq<Devotional>, p: Devotional -> bool, q: Devotional -> bool)
    requires forall k :: 0 <= k < |devs| ==> p(devs[k]) == q(devs[k])
    ensures CountWhere(devs, p) == CountWhere(devs, q)
  {
    if devs != [] {
      SameFilter(devs[1..], p, q);
    }
  }

  datatype DeleteAction = Soft | Restore

  function ActionName(a: DeleteAction): string {
    match a
    case Soft => "soft"
    case Restore => "restore"
  }

  /** The DELETE request `handleDelete` sends, if any: a soft delete goes out
      only after the user confirms; a restore never asks. */
  function DeleteRequest(id: nat, action: DeleteAction, confirmed: bool): (url: Option<string>)
    ensures url.None? <==> action == Soft && !confirmed
    ensures url.Some? ==>
      var prefix := ListPath + "?id=" + NatToString(id) + "&action=";
      prefix <= url.value && url.value[|prefix|..] == ActionName(action)
  {
    if action == Soft && !confirmed then None
    else
      var prefix := ListPath + "?id=" + NatToString(id) + "&action=";
      var url := prefix + ActionName(action);
      assert url[|prefix|..] == ActionName(action);
      Some(url)
  }

  datatype DeleteReply = DeleteNetworkError | DeleteReply(ok: bool)

  datatype DeleteOutcome = Refetch | ShowError(message: string)

  /** What follows the DELETE request. */
  function AfterDelete(reply: DeleteReply): (o: DeleteOutcome)
    ensures o == Refetch <==> reply == DeleteReply(true)
    ensures reply == DeleteReply(false) ==> o == ShowError("Error al eliminar/restaurar el devocional")
    ensures reply.DeleteNetworkError? ==> o == ShowError("Error al procesar la solicitud")
  {
    match reply
    case DeleteNetworkError => ShowError("Error al procesar la solicitud")
    case DeleteReply(ok) => if ok then Refetch else ShowError("Error al eliminar/restaurar el devocional")
  }
}
