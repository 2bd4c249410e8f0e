/**
 * The fallback Google Scholar scraper (`scraper_alt.py`), which reads the profile page's
 * HTML directly. The page is given as the strings the HTML parser would pick out of it;
 * the HTTP session is a parameter returning `None` where the request raises.
 */
module ScraperAlt {
  import opened Wrappers
  import opened Text
  import opened Seqs
  import opened Records

  const BASE_URL: string := "https://scholar.google.com"

  /** The texts the parser finds on a profile page; `None` is an element that is not there. */
  datatype ProfilePage = ProfilePage(
    name: Option<string>,
    affiliation: Option<string>,
    emailText: Option<string>,
    interests: seq<string>,
    metricsTable: Option<seq<seq<string>>>,
    pictureSrc: Option<string>,
    homepageHref: Option<string>)

  /** An HTTP response: status, raw body, and the parsed page. */
  datatype Response = Response(status: int, text: string, page: ProfilePage)

  // ---------------------------------------------------------------- the metrics table

  /** The three metrics of the table, each with an all-time and a recent column. */
  datatype Kind = Citations | HIndex | I10Index

  datatype Metrics = Metrics(citations: int, citations5y: int, hIndex: int, hIndex5y: int, i10Index: int, i10Index5y: int)

  const NO_METRICS: Metrics := Metrics(0, 0, 0, 0, 0, 0)

  function Get(m: Metrics, k: Kind): (int, int)
  {
    match k
    case Citations => (m.citations, m.citations5y)
    case HIndex => (m.hIndex, m.hIndex5y)
    case I10Index => (m.i10Index, m.i10Index5y)
  }

  /** Sets both columns of one metric and nothing else. */
  function Set(m: Metrics, k: Kind, all: int, since: int): (r: Metrics)
    ensures Get(r, k) == (all, since)
    ensures forall k' :: k' != k ==> Get(r, k') == Get(m, k')
  {
    match k
    case Citations => m.(citations := all, citations5y := since)
    case HIndex => m.(hIndex := all, hIndex5y := since)
    case I10Index => m.(i10Index := all, i10Index5y := since)
  }

  /** The metric a row names, matched by substring in this order. */
  function RowKind(metricName: string): Option<Kind>
  {
    if IsSubstring("citations", metricName) then Some(Citations)
    else if IsSubstring("h-index", metricName) then Some(HIndex)
    else if IsSubstring("i10-index", metricName) then Some(I10Index)
    else None
  }

  /** The metric a table row updates: rows with fewer than three cells update none. */
  function RowTarget(cells: seq<string>): Option<Kind>
  {
    if |cells| < 3 then None else RowKind(Lower(Strip(cells[0])))
  }

  /** `int(v) if v else 0`: an empty cell reads 0, a cell `int()` rejects raises (`None`). */
  function IntOr0(v: string): Option<int>
  {
    if v == "" then Some(0) else ParseInt(v)
  }

  /**
   * The two assignments of one row inside its `try`: the all-time value first, then the
   * recent one; a `ValueError` abandons whatever assignment is left.
   */
  function Assign(m: Metrics, k: Kind, all: string, since: string): Metrics
  {
    match IntOr0(all)
    case None => m
    case Some(a) =>
      match IntOr0(since)
      case None => Set(m, k, a, Get(m, k).1)
      case Some(b) => Set(m, k, a, b)
  }

  function ApplyRow(m: Metrics, cells: seq<string>): Metrics
  {
    match RowTarget(cells)
    case None => m
    case Some(k) => Assign(m, k, Strip(cells[1]), Strip(cells[2]))
  }

  /** The row loop, one row after another. */
  function ApplyRows(m: Metrics, rows: seq<seq<string>>): Metrics
  {
    if |rows| == 0 then m else ApplyRow(ApplyRows(m, rows[..|rows| - 1]), rows[|rows| - 1])
  }

  /** Metrics default to 0 when the page has no table. */
  function ParseMetrics(table: Option<seq<seq<string>>>): Metrics
  {
    if table.None? then NO_METRICS else ApplyRows(NO_METRICS, table.value)
  }

  /**
   * One row: a row with fewer than three cells, or naming no metric, changes nothing; a row
   * whose first value `int()` rejects changes nothing; a row whose second value it rejects
   * sets only the first; otherwise both. No other metric changes.
   */
  lemma ApplyRowFacts(m: Metrics, cells: seq<string>)
    ensures RowTarget(cells).None? ==> ApplyRow(m, cells) == m
    ensures forall k :: RowTarget(cells) != Some(k) ==> Get(ApplyRow(m, cells), k) == Get(m, k)
    ensures RowTarget(cells).Some? ==>
              var k := RowTarget(cells).value;
              var all, since := IntOr0(Strip(cells[1])), IntOr0(Strip(cells[2]));
              Get(ApplyRow(m, cells), k) ==
                if all.None? then Get(m, k)
                else if since.None? then (all.value, Get(m, k).1)
                else (all.value, since.value)
  {
  }

  /** Whether a row assigns to metric `k` at all. */
  predicate Touches(cells: seq<string>, k: Kind)
  {
    RowTarget(cells) == Some(k)
  }

  /**
   * The last row naming a metric decides it: when that row's two values both parse, the
   * metric holds them, whatever rows for other metrics follow.
   */
  lemma {:induction false} LastRowWins(m: Metrics, rows: seq<seq<string>>, i: nat, k: Kind)
    requires i < |rows| && Touches(rows[i], k)
    requires IntOr0(Strip(rows[i][1])).Some? && IntOr0(Strip(rows[i][2])).Some?
    requires forall j :: i < j < |rows| ==> !Touches(rows[j], k)
    ensures Get(ApplyRows(m, rows), k) == (IntOr0(Strip(rows[i][1])).value, IntOr0(Strip(rows[i][2])).value)
  {
    var init := rows[..|rows| - 1];
    ApplyRowFacts(ApplyRows(m, init), rows[|rows| - 1]);
    if i < |rows| - 1 {
      assert init[i] == rows[i];
      assert forall j :: i < j < |init| ==> init[j] == rows[j];
      LastRowWins(m, init, i, k);
    }
  }

  /** A metric no row names stays 0. */
  lemma {:induction false} UntouchedStaysZero(rows: seq<seq<string>>, k: Kind)
    requires forall j :: 0 <= j < |rows| ==> !Touches(rows[j], k)
    ensures Get(ApplyRows(NO_METRICS, rows), k) == (0, 0)
  {
    if |rows| > 0 {
      var init := rows[..|rows| - 1];
      assert forall j :: 0 <= j < |init| ==> init[j] == rows[j];
      UntouchedStaysZero(init, k);
      ApplyRowFacts(ApplyRows(NO_METRICS, init), rows[|rows| - 1]);
    }
  }

  // ---------------------------------------------------------------- the profile page

  const VERIFIED_EMAIL_AT: string := "Verified email at"

  /** The e-mail line: the text after the last '@', else the text without "Verified email at", else "". */
  function EmailDomain(emailText: Option<string>): string
  {
    if emailText.None? then ""
    else
      var t := emailText.value;
      if '@' in t then
        var parts := Split(t, '@');
        Strip(parts[|parts| - 1])
      else if IsSubstring(VERIFIED_EMAIL_AT, t) then Strip(ReplaceAll(t, VERIFIED_EMAIL_AT, ""))
      else ""
  }

  /** The domain of an address is what follows its last '@', without surrounding blanks, and holds no '@'. */
  lemma EmailDomainAddress(local: string, domain: string)
    requires '@' !in domain
    ensures EmailDomain(Some(local + "@" + domain)) == Strip(domain)
    ensures '@' !in EmailDomain(Some(local + "@" + domain))
  {
    SplitLast(local, domain, '@');
    var t := local + "@" + domain;
    assert '@' in t by {
      assert t[|local|] == '@';
    }
    var r := Strip(domain);
    var a, b :| 0 <= a <= b <= |domain| && r == domain[a..b];
    assert forall c :: c in r ==> c in domain;
  }

  /** Without an '@', the "Verified email at" banner is removed and the rest stripped. */
  lemma EmailDomainVerified(rest: string)
    requires '@' !in rest && !IsSubstring(VERIFIED_EMAIL_AT, rest)
    ensures EmailDomain(Some(VERIFIED_EMAIL_AT + rest)) == Strip(rest)
  {
    var t := VERIFIED_EMAIL_AT + rest;
    assert '@' !in t by {
      assert '@' !in VERIFIED_EMAIL_AT;
      CharNotInConcat(VERIFIED_EMAIL_AT, rest, '@');
    }
    assert IsSubstring(VERIFIED_EMAIL_AT, t) by {
      PrefixIsSubstring(VERIFIED_EMAIL_AT, rest);
    }
    assert ReplaceAll(t, VERIFIED_EMAIL_AT, "") == rest by {
      ReplacePrefix(VERIFIED_EMAIL_AT, rest);
    }
    EmailDomainBanner(t);
  }

  lemma EmailDomainBanner(t: string)
    requires '@' !in t && IsSubstring(VERIFIED_EMAIL_AT, t)
    ensures EmailDomain(Some(t)) == Strip(ReplaceAll(t, VERIFIED_EMAIL_AT, ""))
  {
  }

  /** A missing e-mail line, or one with neither an '@' nor the banner, gives "". */
  lemma EmailDomainEmpty(emailText: Option<string>)
    requires emailText.Some? ==> '@' !in emailText.value && !IsSubstring(VERIFIED_EMAIL_AT, emailText.value)
    ensures EmailDomain(emailText) == ""
  {
  }

  /** `_parse_author_page`: the record of a page, under the id that was requested. */
  function ParseAuthorPage(page: ProfilePage, scholarId: string, now: string): (r: ScholarAuthor)
    ensures r.scholarId == scholarId
    ensures page.name.None? ==> r.name == ""
    ensures page.metricsTable.None? ==> r.hIndex == 0 && r.citations == 0 && r.i10Index == 0
    ensures |r.interests| == |page.interests|
  {
    var m := ParseMetrics(page.metricsTable);
    ScholarAuthor(
      scholarId,
      Strip(page.name.GetOr("")),
      Strip(page.affiliation.GetOr("")),
      EmailDomain(page.emailText),
      StripAll(page.interests),
      m.hIndex, m.hIndex5y, m.i10Index, m.i10Index5y, m.citations, m.citations5y,
      page.pictureSrc.GetOr(""),
      page.homepageHref.GetOr(""),
      now)
  }

  // ---------------------------------------------------------------- get_author_by_id

  function ProfileUrl(scholarId: string): string
  {
    BASE_URL + "/citations?user=" + scholarId + "&hl=en"
  }

  /** The anti-bot page, recognised in the lower-cased body. */
  predicate Blocked(text: string)
  {
    IsSubstring("unusual traffic", Lower(text)) || IsSubstring("captcha", Lower(text))
  }

  /**
   * `get_author_by_id`: `None` when the request raises, when the status is not 200 and when
   * the body is the anti-bot page; otherwise the parsed page under the requested id.
   */
  function GetAuthorById(fetch: string -> Option<Response>, scholarId: string, now: string): (r: Option<ScholarAuthor>)
    ensures r.Some? ==> r.value.scholarId == scholarId
    ensures r.Some? ==> fetch(ProfileUrl(scholarId)).Some? && fetch(ProfileUrl(scholarId)).value.status == 200
                        && !Blocked(fetch(ProfileUrl(scholarId)).value.text)
  {
    match fetch(ProfileUrl(scholarId))
    case None => None
    case Some(resp) =>
      if resp.status != 200 then None
      else if Blocked(resp.text) then None
      else Some(ParseAuthorPage(resp.page, scholarId, now))
  }

  /** Conversely, an answered, unblocked 200 response always yields that page's record. */
  lemma GetAuthorByIdSucceeds(fetch: string -> Option<Response>, scholarId: string, now: string)
    requires fetch(ProfileUrl(scholarId)).Some?
    requires fetch(ProfileUrl(scholarId)).value.status == 200 && !Blocked(fetch(ProfileUrl(scholarId)).value.text)
    ensures GetAuthorById(fetch, scholarId, now) == Some(ParseAuthorPage(fetch(ProfileUrl(scholarId)).value.page, scholarId, now))
  {
  }

  /** `get_authors_from_ids`: one lookup per id, in order, failed lookups omitted. */
  function GetAuthorsFromIds(fetch: string -> Option<Response>, ids: seq<string>, now: string): (r: seq<ScholarAuthor>)
    ensures |r| <= |ids|
    ensures IsSubseq(ScholarIds(r), ids)
    ensures forall i :: 0 <= i < |ids| && GetAuthorById(fetch, ids[i], now).Some? ==> GetAuthorById(fetch, ids[i], now).value in r
  {
    if |ids| == 0 then []
    else
      var rest := GetAuthorsFromIds(fetch, ids[1..], now);
      assert forall i :: 1 <= i < |ids| ==> ids[i] == ids[1..][i - 1];
      match GetAuthorById(fetch, ids[0], now)
      case None =>
        assert ScholarIds(rest) == [] || IsSubseq(ScholarIds(rest), ids[1..]);
        rest
      case Some(a) =>
        assert ScholarIds([a] + rest)[1..] == ScholarIds(rest);
        [a] + rest
  }

  // ---------------------------------------------------------------- search_authors

  /** An `<a>` element; `href` is `None` when the attribute is missing. */
  datatype Link = Link(href: Option<string>)

  /** One search hit: its photo link and its first link of any kind. */
  datatype ResultDiv = ResultDiv(photoLink: Option<Link>, firstLink: Option<Link>)

  datatype SearchResponse = SearchResponse(status: int, divs: seq<ResultDiv>)

  /** `user=` followed by at least one character other than '&' starts at position `j`. */
  predicate MatchAt(h: string, j: int)
  {
    0 <= j && j + 5 < |h| && h[j..j + 5] == "user=" && h[j + 5] != '&'
  }

  /** The characters before the first '&'. */
  function UntilAmp(s: string): (r: string)
    ensures r <= s && '&' !in r
    ensures |r| < |s| ==> s[|r|] == '&'
  {
    if |s| == 0 || s[0] == '&' then "" else [s[0]] + UntilAmp(s[1..])
  }

  /** `re.search(r'user=([^&]+)', h)` scanning from position `i`: group 1 of the leftmost match. */
  function UserParamFrom(h: string, i: nat): (r: Option<string>)
    decreases |h| - i
  {
    if i + 5 >= |h| then None
    else if MatchAt(h, i) then Some(UntilAmp(h[i + 5..]))
    else UserParamFrom(h, i + 1)
  }

  function UserParam(h: string): Option<string>
  {
    UserParamFrom(h, 0)
  }

  lemma {:induction false} UserParamFromFacts(h: string, i: nat)
    ensures UserParamFrom(h, i).Some? <==> exists j :: i <= j && MatchAt(h, j)
    ensures UserParamFrom(h, i).Some? ==>
              exists j :: i <= j && MatchAt(h, j) && UserParamFrom(h, i).value == UntilAmp(h[j + 5..])
    decreases |h| - i
  {
    if i + 5 < |h| && !MatchAt(h, i) {
      UserParamFromFacts(h, i + 1);
      assert forall j :: i <= j && MatchAt(h, j) ==> i + 1 <= j;
    }
  }

  /**
   * The captured id is non-empty, holds no '&', and follows a "user=" in the link; there is
   * one exactly when the link has "user=" followed by something other than '&'.
   */
  lemma UserParamFacts(h: string)
    ensures UserParam(h).Some? <==> exists j :: MatchAt(h, j)
    ensures UserParam(h).Some? ==>
              |UserParam(h).value| > 0 && '&' !in UserParam(h).value && IsSubstring("user=" + UserParam(h).value, h)
  {
    UserParamFromFacts(h, 0);
    if UserParam(h).Some? {
      var j :| 0 <= j && MatchAt(h, j) && UserParam(h).value == UntilAmp(h[j + 5..]);
      CapturedId(h, j);
    }
  }

  /** What a match at `j` captures: a non-empty id free of '&', right after "user=". */
  lemma CapturedId(h: string, j: nat)
    requires MatchAt(h, j)
    ensures |UntilAmp(h[j + 5..])| > 0 && IsSubstring("user=" + UntilAmp(h[j + 5..]), h)
  {
    var s := h[j + 5..];
    var v := UntilAmp(s);
    assert s[0] == h[j + 5];
    assert s[..|v|] == v;
    assert h[j..j + 5 + |v|] == h[j..j + 5] + s[..|v|];
    SubstringAt("user=" + v, h, j);
  }

  lemma {:induction false} UserParamSkip(h: string, i: nat, n: nat)
    requires i <= n <= |h| && forall t :: i <= t < n ==> h[t] != 'u'
    ensures UserParamFrom(h, i) == UserParamFrom(h, n)
    decreases n - i
  {
    if i < n {
      assert !MatchAt(h, i) by {
        if i + 5 < |h| {
          assert h[i..i + 5][0] == h[i];
        }
      }
      if i + 5 >= |h| {
        UserParamNone(h, n);
      } else {
        UserParamSkip(h, i + 1, n);
      }
    }
  }

  lemma UserParamNone(h: string, n: nat)
    requires n + 5 >= |h|
    ensures UserParamFrom(h, n) == None
  {
  }

  /**
   * A profile link `p + "user=" + id + rest` yields `id` when nothing before it could start
   * a match (no 'u') and the id runs up to the next parameter.
   */
  lemma UserParamOfProfileLink(p: string, id: string, rest: string)
    requires 'u' !in p && |id| > 0 && '&' !in id && (rest == "" || rest[0] == '&')
    ensures UserParam(p + "user=" + id + rest) == Some(id)
  {
    var h := p + "user=" + id + rest;
    assert forall t :: 0 <= t < |p| ==> h[t] == p[t];
    UserParamSkip(h, 0, |p|);
    assert h[|p|..|p| + 5] == "user=";
    assert h[|p| + 5] == id[0];
    assert MatchAt(h, |p|);
    assert h[|p| + 5..] == id + rest;
    UntilAmpOf(id, rest);
  }

  lemma {:induction false} UntilAmpOf(id: string, rest: string)
    requires '&' !in id && (rest == "" || rest[0] == '&')
    ensures UntilAmp(id + rest) == id
  {
    if |id| > 0 {
      assert (id + rest)[1..] == id[1..] + rest;
      UntilAmpOf(id[1..], rest);
    } else {
      assert id + rest == rest;
    }
  }

  /** The id of one hit: the photo link, else the first link, when its href has `user=...`. */
  function DivUserId(d: ResultDiv): Option<string>
  {
    var link := if d.photoLink.Some? then d.photoLink else d.firstLink;
    if link.None? then None
    else
      var href := link.value.href.GetOr("");
      if IsSubstring("user=", href) then UserParam(href) else None
  }

  /**
   * `search_authors`: nothing when the search request raises or answers other than 200;
   * otherwise the hits in `author_divs[:max_results]` with an id, each looked up by id.
   */
  function SearchAuthors(search: string -> Option<SearchResponse>, fetch: string -> Option<Response>,
                         query: string, maxResults: int, now: string): (r: seq<ScholarAuthor>)
    ensures search(query).None? || search(query).value.status != 200 ==> r == []
    ensures search(query).Some? && search(query).value.status == 200 ==>
              |r| <= |SliceTo(search(query).value.divs, maxResults)|
    ensures forall i :: 0 <= i < |r| ==> '&' !in r[i].scholarId && |r[i].scholarId| > 0
    ensures search(query).Some? && search(query).value.status == 200 ==>
              r == GetAuthorsFromIds(fetch, Successes(SliceTo(search(query).value.divs, maxResults), DivUserId), now)
  {
    match search(query)
    case None => []
    case Some(resp) =>
      if resp.status != 200 then []
      else
        var ids := Successes(SliceTo(resp.divs, maxResults), DivUserId);
        var r := GetAuthorsFromIds(fetch, ids, now);
        assert forall i :: 0 <= i < |ids| ==> '&' !in ids[i] && |ids[i]| > 0 by {
          forall i | 0 <= i < |ids|
            ensures '&' !in ids[i] && |ids[i]| > 0
          {
            var j :| 0 <= j < |SliceTo(resp.divs, maxResults)| && DivUserId(SliceTo(resp.divs, maxResults)[j]) == Some(ids[i]);
            var d := SliceTo(resp.divs, maxResults)[j];
            var link := if d.photoLink.Some? then d.photoLink else d.firstLink;
            UserParamFacts(link.value.href.GetOr(""));
          }
        }
        SubseqMembers(ScholarIds(r), ids);
        assert forall i :: 0 <= i < |r| ==> ScholarIds(r)[i] in ids;
        r
  }
}
