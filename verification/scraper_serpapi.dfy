/**
 * The SerpAPI Google Scholar client (`scraper_serpapi.py`): the key guard of every request,
 * the mapping of an author result onto a record, and the searches built on it. The HTTP
 * endpoint is a parameter returning `None` where the request raises; JSON objects are
 * datatypes whose `None` fields are keys the object lacks.
 */
module ScraperSerpApi {
  import opened Wrappers
  import opened Text
  import opened Seqs
  import opened Records

  /** The query parameters of one request, `api_key` included. */
  datatype Request = Request(engine: string, argName: string, argValue: string, hl: string, apiKey: string)

  /** A response: its status and its decoded body (`None` when the body is not JSON). */
  datatype HttpReply<J> = HttpReply(status: int, body: Option<J>)

  /** `api_key or os.environ.get('SERPAPI_KEY')`: an empty key counts as none. */
  function ResolveKey(given: Option<string>, env: Option<string>): (r: Option<string>)
    ensures given.Some? && given.value != "" ==> r == given
    ensures (given.None? || given.value == "") ==> r == env
  {
    if given.Some? && given.value != "" then given else env
  }

  predicate HasKey(key: Option<string>) { key.Some? && key.value != "" }

  /**
   * `_make_request`: `None` without a key; otherwise the request goes out with the key
   * added, and only a 200 answer with a JSON body yields a result.
   */
  function MakeRequest<J>(key: Option<string>, engine: string, argName: string, argValue: string,
                          http: Request -> Option<HttpReply<J>>): (r: Option<J>)
    ensures !HasKey(key) ==> r.None?
    ensures r.Some? ==>
              var sent := http(Request(engine, argName, argValue, "en", key.value));
              sent.Some? && sent.value.status == 200 && sent.value.body == r
  {
    if !HasKey(key) then None
    else
      match http(Request(engine, argName, argValue, "en", key.value))
      case None => None
      case Some(reply) => if reply.status == 200 then reply.body else None
  }

  /** Without a key the endpoint is never consulted: any two endpoints give the same (empty) answer. */
  lemma NoKeyNoRequest<J>(key: Option<string>, engine: string, argName: string, argValue: string,
                          http1: Request -> Option<HttpReply<J>>, http2: Request -> Option<HttpReply<J>>)
    requires !HasKey(key)
    ensures MakeRequest(key, engine, argName, argValue, http1) == MakeRequest(key, engine, argName, argValue, http2) == None
  {
  }

  // ---------------------------------------------------------------- get_author_by_id

  datatype Interest = Interest(title: Option<string>)

  /** The `author` object. */
  datatype AuthorObj = AuthorObj(
    name: Option<string>,
    affiliations: Option<string>,
    email: Option<string>,
    interests: Option<seq<Interest>>,
    thumbnail: Option<string>,
    website: Option<string>)

  datatype Counts = Counts(all: Option<int>, since2019: Option<int>)

  /** A row of `cited_by.table`. */
  datatype TableRow = TableRow(id: Option<string>, citations: Option<Counts>)

  /** The decoded author result; `otherKeys` says whether it has keys besides these two. */
  datatype AuthorResult = AuthorResult(author: Option<AuthorObj>, citedBy: Option<seq<TableRow>>, otherKeys: bool)

  /** `not result`: an empty JSON object is falsy. */
  predicate EmptyAuthorResult(res: AuthorResult)
  {
    res.author.None? && res.citedBy.None? && !res.otherKeys
  }

  function RowKey(row: TableRow): string { row.id.GetOr("") }

  /** `{'all': ..., 'since_2019': ...}` of a row, missing counts read as 0. */
  function RowCounts(row: TableRow): (int, int)
  {
    var c := row.citations.GetOr(Counts(None, None));
    (c.all.GetOr(0), c.since2019.GetOr(0))
  }

  /** The `metrics` dict: keyed by row id, a later row overwriting an earlier one. */
  function MetricsOf(table: seq<TableRow>): map<string, (int, int)>
  {
    LastWins(table, RowKey, RowCounts)
  }

  /** `metrics.get(id, {})`, read as both counts 0 when the id has no row. */
  function Metric(metrics: map<string, (int, int)>, id: string): (int, int)
  {
    if id in metrics then metrics[id] else (0, 0)
  }

  function Titles(xs: seq<Interest>): (r: seq<string>)
    ensures |r| == |xs| && forall i :: 0 <= i < |xs| ==> r[i] == xs[i].title.GetOr("")
  {
    seq(|xs|, i requires 0 <= i < |xs| => xs[i].title.GetOr(""))
  }

  const VERIFIED_EMAIL_AT: string := "Verified email at "

  /** The record of a (truthy) author result, under the id that was requested. */
  function ToRecord(res: AuthorResult, scholarId: string, now: string): ScholarAuthor
  {
    var author := res.author.GetOr(AuthorObj(None, None, None, None, None, None));
    var metrics := MetricsOf(res.citedBy.GetOr([]));
    var h, i10, c := Metric(metrics, "h_index"), Metric(metrics, "i10_index"), Metric(metrics, "citations");
    ScholarAuthor(
      scholarId,
      author.name.GetOr(""),
      author.affiliations.GetOr(""),
      ReplaceAll(author.email.GetOr(""), VERIFIED_EMAIL_AT, ""),
      Titles(author.interests.GetOr([])),
      h.0, h.1, i10.0, i10.1, c.0, c.1,
      author.thumbnail.GetOr(""),
      author.website.GetOr(""),
      now)
  }

  type AuthorApi = Request -> Option<HttpReply<AuthorResult>>

  /** `get_author_by_id`: `None` when the request yields nothing or an empty object. */
  function GetAuthorById(key: Option<string>, api: AuthorApi, scholarId: string, now: string): (r: Option<ScholarAuthor>)
    ensures !HasKey(key) ==> r.None?
    ensures r.Some? ==> r.value.scholarId == scholarId
    ensures r.Some? ==>
              var res := MakeRequest(key, "google_scholar_author", "author_id", scholarId, api);
              res.Some? && !EmptyAuthorResult(res.value)
  {
    match MakeRequest(key, "google_scholar_author", "author_id", scholarId, api)
    case None => None
    case Some(res) => if EmptyAuthorResult(res) then None else Some(ToRecord(res, scholarId, now))
  }

  /**
   * The metric rows: a metric takes the counts of the LAST row with its id (missing counts
   * read as 0), and a metric with no row reads 0.
   */
  lemma MetricFromLastRow(table: seq<TableRow>, id: string, i: nat)
    requires i < |table| && RowKey(table[i]) == id
    requires forall j :: i < j < |table| ==> RowKey(table[j]) != id
    ensures Metric(MetricsOf(table), id) == RowCounts(table[i])
  {
    LastWinsFacts(table, RowKey, RowCounts);
  }

  lemma MetricWithoutRow(table: seq<TableRow>, id: string)
    requires forall j :: 0 <= j < |table| ==> RowKey(table[j]) != id
    ensures Metric(MetricsOf(table), id) == (0, 0)
  {
    LastWinsFacts(table, RowKey, RowCounts);
    assert id !in KeysOf(table, RowKey);
  }

  /** The e-mail banner is removed from the front, and the interests are the titles in order. */
  lemma ToRecordText(res: AuthorResult, scholarId: string, now: string, domain: string)
    requires res.author.Some? && res.author.value.email == Some(VERIFIED_EMAIL_AT + domain)
    requires !IsSubstring(VERIFIED_EMAIL_AT, domain)
    ensures ToRecord(res, scholarId, now).emailDomain == domain
    ensures ToRecord(res, scholarId, now).interests == Titles(res.author.value.interests.GetOr([]))
  {
    ReplacePrefix(VERIFIED_EMAIL_AT, domain);
  }

  // ---------------------------------------------------------------- searches

  datatype ProfileHit = ProfileHit(authorId: Option<string>)

  /** The decoded profile search; `otherKeys` as for the author result. */
  datatype ProfilesResult = ProfilesResult(profiles: Option<seq<ProfileHit>>, otherKeys: bool)

  type ProfilesApi = Request -> Option<HttpReply<ProfilesResult>>

  /** The id of a hit, when it has a non-empty one. */
  function HitId(p: ProfileHit): Option<string>
  {
    if p.authorId.Some? && p.authorId.value != "" then p.authorId else None
  }

  /** `get_authors_from_ids`: one lookup per id, in order, failed lookups omitted. */
  function GetAuthorsFromIds(key: Option<string>, api: AuthorApi, ids: seq<string>, now: string): (r: seq<ScholarAuthor>)
    ensures |r| <= |ids|
    ensures IsSubseq(ScholarIds(r), ids)
    ensures forall i :: 0 <= i < |ids| && GetAuthorById(key, api, ids[i], now).Some? ==> GetAuthorById(key, api, ids[i], now).value in r
  {
    if |ids| == 0 then []
    else
      var rest := GetAuthorsFromIds(key, api, ids[1..], now);
      assert forall i :: 1 <= i < |ids| ==> ids[i] == ids[1..][i - 1];
      match GetAuthorById(key, api, ids[0], now)
      case None =>
        assert ScholarIds(rest) == [] || IsSubseq(ScholarIds(rest), ids[1..]);
        rest
      case Some(a) =>
        assert ScholarIds([a] + rest)[1..] == ScholarIds(rest);
        [a] + rest
  }

  /**
   * `search_authors`: nothing without a result; otherwise the hits of `profiles[:max_results]`
   * with a non-empty `author_id`, each looked up by id.
   */
  function SearchAuthors(key: Option<string>, profilesApi: ProfilesApi, api: AuthorApi,
                         query: string, maxResults: int, now: string): (r: seq<ScholarAuthor>)
    ensures !HasKey(key) ==> r == []
    ensures forall i :: 0 <= i < |r| ==> r[i].scholarId != ""
    ensures var res := MakeRequest(key, "google_scholar_profiles", "mauthors", query, profilesApi);
            res.Some? ==> |r| <= |SliceTo(res.value.profiles.GetOr([]), maxResults)|
    ensures var res := MakeRequest(key, "google_scholar_profiles", "mauthors", query, profilesApi);
            res.None? || (res.value.profiles.None? && !res.value.otherKeys) ==> r == []
    ensures var res := MakeRequest(key, "google_scholar_profiles", "mauthors", query, profilesApi);
            res.Some? && (res.value.profiles.Some? || res.value.otherKeys) ==>
              r == GetAuthorsFromIds(key, api, Successes(SliceTo(res.value.profiles.GetOr([]), maxResults), HitId), now)
  {
    match MakeRequest(key, "google_scholar_profiles", "mauthors", query, profilesApi)
    case None => []
    case Some(res) =>
      if res.profiles.None? && !res.otherKeys then []
      else
        var hits := SliceTo(res.profiles.GetOr([]), maxResults);
        var ids := Successes(hits, HitId);
        var r := GetAuthorsFromIds(key, api, ids, now);
        SubseqMembers(ScholarIds(r), ids);
        assert forall i :: 0 <= i < |r| ==> ScholarIds(r)[i] in ids;
        r
  }

  /** Every hit among the first `max_results` whose id lookup succeeds is in the search result. */
  lemma SearchAuthorsFindsHits(key: Option<string>, profilesApi: ProfilesApi, api: AuthorApi,
                               query: string, maxResults: int, now: string, res: ProfilesResult, j: nat)
    requires MakeRequest(key, "google_scholar_profiles", "mauthors", query, profilesApi) == Some(res)
    requires res.profiles.Some? && j < |SliceTo(res.profiles.value, maxResults)|
    requires HitId(SliceTo(res.profiles.value, maxResults)[j]).Some?
    requires GetAuthorById(key, api, HitId(SliceTo(res.profiles.value, maxResults)[j]).value, now).Some?
    ensures GetAuthorById(key, api, HitId(SliceTo(res.profiles.value, maxResults)[j]).value, now).value
            in SearchAuthors(key, profilesApi, api, query, maxResults, now)
  {
    var hits := SliceTo(res.profiles.value, maxResults);
    var ids := Successes(hits, HitId);
    var id := HitId(hits[j]).value;
    assert id in ids;
    var i :| 0 <= i < |ids| && ids[i] == id;
    assert res.profiles.GetOr([]) == res.profiles.value;
  }
}
