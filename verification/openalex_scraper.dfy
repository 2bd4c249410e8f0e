/**
 * The OpenAlex extractor (`openalex_scraper.py`): flattening one author object into a
 * row, the social-science filter, the two cursor-paginated crawls (by topic and by
 * Chilean institution) over an abstract server, and the cross-source merge that keeps
 * the most-cited copy of each author.
 */
module OpenAlexScraper {
  import opened Wrappers
  import opened Text
  import opened Seqs
  import opened OpenAlexJson

  const OPENALEX_PREFIX: string := "https://openalex.org/"
  const ORCID_PREFIX: string := "https://orcid.org/"

  /** Page size limits of the two crawls as `main` calls them. */
  const MAX_TOPIC_RESULTS: int := 2000
  const MAX_PER_TERM: int := 300

  /** The institutions searched by name, in this order (the `search_terms` argument is ignored). */
  const CHILEAN_INSTITUTIONS: seq<string> := [
    "Universidad de Chile",
    "Pontificia Universidad Católica de Chile",
    "Universidad Diego Portales",
    "Universidad de Santiago",
    "Universidad Adolfo Ibáñez",
    "Universidad Alberto Hurtado",
    "Universidad de Concepción",
    "Universidad de Valparaíso",
    "Universidad Austral",
    "Universidad de Talca",
    "Universidad Católica de Valparaíso",
    "COES",
    "FLACSO Chile"
  ]

  /** Fields that admit an author in non-strict mode. */
  const SOCIAL_SCIENCE_FIELDS: seq<string> := [
    "Social Sciences",
    "Economics, Econometrics and Finance",
    "Arts and Humanities",
    "Psychology",
    "Business, Management and Accounting",
    "Decision Sciences"
  ]

  /** Fields that exclude an author in both modes. */
  const EXCLUDE_FIELDS: seq<string> := [
    "Computer Science",
    "Engineering",
    "Mathematics",
    "Physics and Astronomy",
    "Chemistry",
    "Materials Science",
    "Chemical Engineering",
    "Environmental Science",
    "Earth and Planetary Sciences",
    "Agricultural and Biological Sciences",
    "Biochemistry, Genetics and Molecular Biology",
    "Neuroscience",
    "Immunology and Microbiology",
    "Pharmacology, Toxicology and Pharmaceutics",
    "Medicine",
    "Nursing",
    "Health Professions",
    "Dentistry",
    "Veterinary",
    "Energy"
  ]

  const SOCIAL_SCIENCES_DOMAIN: string := "Social Sciences"

  // ---------------------------------------------------------------- parse_author

  /** The flat row `parse_author` produces. A JSON-null ORCID stays `None`. */
  datatype OARow = OARow(
    openalexId: string,
    orcid: Option<string>,
    nombre: string,
    institucion: string,
    paisInstitucion: string,
    ror: string,
    hIndex: int,
    i10Index: int,
    citas: int,
    trabajos: int,
    campoPrincipal: string,
    dominio: string,
    topics: string,
    worksApiUrl: string)

  /** `author.get("id", "").replace("https://openalex.org/", "")`. */
  function IdOf(a: OAAuthor): string
  {
    ReplaceAll(a.id.GetOr(""), OPENALEX_PREFIX, "")
  }

  function RowId(r: OARow): string { r.openalexId }

  /** The display names of the first five topics, "" for a topic without one. */
  function TopicNames(a: OAAuthor): (names: seq<string>)
    ensures |names| <= 5 && |names| <= |a.topics|
    ensures |a.topics| >= 5 ==> |names| == 5
    ensures forall i :: 0 <= i < |names| ==> names[i] == a.topics[i].displayName.GetOr("")
  {
    var ts := SliceTo(a.topics, 5);
    seq(|ts|, i requires 0 <= i < |ts| => ts[i].displayName.GetOr(""))
  }

  function ParseOrcid(o: JsonStr): Option<string>
  {
    match o
    case Absent => Some("")
    case Null => None
    case JStr(s) => Some(if s != "" then ReplaceAll(s, ORCID_PREFIX, "") else s)
  }

  /** `parse_author`: one OpenAlex author object as a flat row. */
  function ParseAuthor(a: OAAuthor): (r: OARow)
    ensures r.openalexId == IdOf(a)
  {
    var hasInst := |a.lastKnown| > 0;
    OARow(
      IdOf(a),
      ParseOrcid(a.orcid),
      a.displayName.GetOr(""),
      if hasInst then a.lastKnown[0].displayName.GetOr("") else "",
      if hasInst then a.lastKnown[0].countryCode.GetOr("") else "",
      if hasInst then a.lastKnown[0].ror.GetOr("") else "",
      StatOr0(a.summaryStats, HIndexOf),
      StatOr0(a.summaryStats, I10IndexOf),
      a.citedByCount.GetOr(0),
      a.worksCount.GetOr(0),
      if |a.topics| > 0 then NameOf(a.topics[0].field) else "",
      if |a.topics| > 0 then NameOf(a.topics[0].domain) else "",
      Join(TopicNames(a), "; "),
      a.worksApiUrl.GetOr(""))
  }

  /** The URL prefixes of the author id and of the ORCID are removed. */
  lemma ParseAuthorStripsIds(a: OAAuthor, rest: string, orcidRest: string)
    requires a.id == Some(OPENALEX_PREFIX + rest) && !IsSubstring(OPENALEX_PREFIX, rest)
    requires a.orcid == JStr(ORCID_PREFIX + orcidRest) && !IsSubstring(ORCID_PREFIX, orcidRest)
    ensures ParseAuthor(a).openalexId == rest
    ensures ParseAuthor(a).orcid == Some(orcidRest)
  {
    ReplacePrefix(OPENALEX_PREFIX, rest);
    ReplacePrefix(ORCID_PREFIX, orcidRest);
  }

  /** An absent ORCID becomes "", a JSON-null one stays null, and an id without the prefix is kept. */
  lemma ParseAuthorOrcidCases(a: OAAuthor)
    ensures a.orcid.Absent? ==> ParseAuthor(a).orcid == Some("")
    ensures a.orcid.Null? ==> ParseAuthor(a).orcid == None
    ensures a.id.Some? && !IsSubstring(OPENALEX_PREFIX, a.id.value) ==> ParseAuthor(a).openalexId == a.id.value
  {
    if a.id.Some? && !IsSubstring(OPENALEX_PREFIX, a.id.value) {
      ReplaceAbsent(a.id.value, OPENALEX_PREFIX, "");
    }
  }

  /** Without a last-known institution the three institution columns are ""; missing metrics are 0. */
  lemma ParseAuthorDefaults(a: OAAuthor)
    ensures |a.lastKnown| == 0 ==>
              ParseAuthor(a).institucion == "" && ParseAuthor(a).paisInstitucion == "" && ParseAuthor(a).ror == ""
    ensures |a.lastKnown| > 0 ==> ParseAuthor(a).paisInstitucion == a.lastKnown[0].countryCode.GetOr("")
    ensures a.summaryStats.None? ==> ParseAuthor(a).hIndex == 0 && ParseAuthor(a).i10Index == 0
    ensures a.summaryStats.Some? && a.summaryStats.value.hIndex.None? ==> ParseAuthor(a).hIndex == 0
    ensures a.citedByCount.None? ==> ParseAuthor(a).citas == 0
    ensures a.worksCount.None? ==> ParseAuthor(a).trabajos == 0
  {
  }

  /**
   * The topics column joins the names of at most five topics with "; ", and the field and
   * domain columns come from the first topic alone.
   */
  lemma ParseAuthorTopics(a: OAAuthor)
    ensures ParseAuthor(a).topics == Join(TopicNames(a), "; ")
    ensures |a.topics| == 0 ==> ParseAuthor(a).topics == "" && ParseAuthor(a).campoPrincipal == ""
                                && ParseAuthor(a).dominio == ""
    ensures |a.topics| > 0 ==> ParseAuthor(a).campoPrincipal == NameOf(a.topics[0].field)
                               && ParseAuthor(a).dominio == NameOf(a.topics[0].domain)
    ensures forall w: nat :: (forall i :: 0 <= i < |a.topics| ==> |a.topics[i].displayName.GetOr("")| <= w)
              ==> |ParseAuthor(a).topics| <= 5 * w + 8
  {
    var names := TopicNames(a);
    forall w: nat | forall i :: 0 <= i < |a.topics| ==> |a.topics[i].displayName.GetOr("")| <= w
      ensures |ParseAuthor(a).topics| <= 5 * w + 8
    {
      JoinLength(names, "; ", w);
    }
  }

  function ParseAll(xs: seq<OAAuthor>): (r: seq<OARow>)
    ensures |r| == |xs| && forall i :: 0 <= i < |xs| ==> r[i] == ParseAuthor(xs[i])
  {
    seq(|xs|, i requires 0 <= i < |xs| => ParseAuthor(xs[i]))
  }

  // ---------------------------------------------------------------- filter_social_sciences

  predicate ChileanNotExcluded(r: OARow)
  {
    r.paisInstitucion == "CL" && r.campoPrincipal !in EXCLUDE_FIELDS
  }

  /** `strict=True`: only the Social Sciences domain. */
  predicate StrictKeep(r: OARow)
  {
    ChileanNotExcluded(r) && r.dominio == SOCIAL_SCIENCES_DOMAIN
  }

  /** `strict=False`: a related field or the Social Sciences domain. */
  predicate LooseKeep(r: OARow)
  {
    ChileanNotExcluded(r) && (r.campoPrincipal in SOCIAL_SCIENCE_FIELDS || r.dominio == SOCIAL_SCIENCES_DOMAIN)
  }

  /** `filter_social_sciences`: Chilean authors outside the excluded fields, by domain or field. */
  function FilterSocialSciences(rows: seq<OARow>, strict: bool): (r: seq<OARow>)
    ensures IsSubseq(r, rows)
    ensures forall i :: 0 <= i < |r| ==> r[i].paisInstitucion == "CL" && r[i].campoPrincipal !in EXCLUDE_FIELDS
    ensures strict ==> forall i :: 0 <= i < |r| ==> r[i].dominio == SOCIAL_SCIENCES_DOMAIN
    ensures !strict ==> forall i :: 0 <= i < |r| ==>
              r[i].campoPrincipal in SOCIAL_SCIENCE_FIELDS || r[i].dominio == SOCIAL_SCIENCES_DOMAIN
    ensures forall i :: 0 <= i < |rows| && (if strict then StrictKeep(rows[i]) else LooseKeep(rows[i]))
              ==> rows[i] in r
  {
    var p := if strict then StrictKeep else LooseKeep;
    FilterIsSubseq(rows, p);
    Filter(rows, p)
  }

  /** Strict mode keeps a subsequence of what non-strict mode keeps. */
  lemma StrictWithinLoose(rows: seq<OARow>)
    ensures IsSubseq(FilterSocialSciences(rows, true), FilterSocialSciences(rows, false))
  {
    FilterMono(rows, StrictKeep, LooseKeep);
  }

  /** Filtering twice in the same mode changes nothing more. */
  lemma FilterSocialSciencesIdempotent(rows: seq<OARow>, strict: bool)
    ensures FilterSocialSciences(FilterSocialSciences(rows, strict), strict) == FilterSocialSciences(rows, strict)
  {
    var p := if strict then StrictKeep else LooseKeep;
    FilterAll(Filter(rows, p), p);
  }

  // ---------------------------------------------------------------- cursor pagination

  /** One response of the `/authors` endpoint, or a request exception. */
  datatype Page = RequestFailed | Page(results: seq<OAAuthor>, nextCursor: Option<string>)

  /** Why a crawl stopped. */
  datatype Stop = NoCursor | Capped | EmptyPage | RequestError

  datatype Crawl = Crawl(fetched: seq<OAAuthor>, stop: Stop)

  /** `while cursor ...`: the cursor is neither null nor "". */
  predicate CursorLive(c: Option<string>) { c.Some? && c.value != "" }

  /**
   * Reference definition of one paginated crawl: the authors of every page fetched from
   * `cursor` on, counting `total` authors already fetched, and the reason it stops.
   */
  function CrawlFrom(server: string -> Page, cursor: Option<string>, total: int, maxResults: int): (r: Crawl)
    ensures r.stop.Capped? ==> total + |r.fetched| >= maxResults
    ensures r.stop.EmptyPage? || r.stop.RequestError? ==> total + |r.fetched| < maxResults
    ensures r.stop.NoCursor? && total < maxResults && |r.fetched| == 0 ==> !CursorLive(cursor)
    decreases maxResults - total
  {
    if !CursorLive(cursor) then Crawl([], NoCursor)
    else if total >= maxResults then Crawl([], Capped)
    else
      match server(cursor.value)
      case RequestFailed => Crawl([], RequestError)
      case Page(results, next) =>
        if |results| == 0 then Crawl([], EmptyPage)
        else
          var rest := CrawlFrom(server, next, total + |results|, maxResults);
          Crawl(results + rest.fetched, rest.stop)
  }

  /** One continuing page of a crawl: its authors, then the crawl from the next cursor. */
  lemma CrawlUnfold(server: string -> Page, cursor: Option<string>, total: int, maxResults: int)
    requires CursorLive(cursor) && total < maxResults
    requires server(cursor.value).Page? && |server(cursor.value).results| > 0
    ensures var p := server(cursor.value);
            var rest := CrawlFrom(server, p.nextCursor, total + |p.results|, maxResults);
            CrawlFrom(server, cursor, total, maxResults) == Crawl(p.results + rest.fetched, rest.stop)
  {
  }

  /**
   * The `all_authors` dict of a crawl, in insertion order: the stored authors and the set of
   * their ids (the dict's keys).
   */
  datatype AuthorDict = AuthorDict(authors: seq<OAAuthor>, ids: set<string>)

  /** One iteration of the per-author loop: store the author when admitted and its id is new. */
  function Admit(d: AuthorDict, a: OAAuthor, keep: OAAuthor -> bool): AuthorDict
  {
    if keep(a) && IdOf(a) !in d.ids then AuthorDict(d.authors + [a], d.ids + {IdOf(a)}) else d
  }

  /** The per-author loop over a list of authors. */
  function AdmitAll(d: AuthorDict, xs: seq<OAAuthor>, keep: OAAuthor -> bool): AuthorDict
    decreases |xs|
  {
    if |xs| == 0 then d else AdmitAll(Admit(d, xs[0], keep), xs[1..], keep)
  }

  /** Running the loop over two lists back to back is running it over their concatenation. */
  lemma {:induction false} AdmitAllAppend(d: AuthorDict, xs: seq<OAAuthor>, ys: seq<OAAuthor>, keep: OAAuthor -> bool)
    ensures AdmitAll(d, xs + ys, keep) == AdmitAll(AdmitAll(d, xs, keep), ys, keep)
    decreases |xs|
  {
    if |xs| == 0 {
      assert xs + ys == ys;
    } else {
      assert (xs + ys)[0] == xs[0] && (xs + ys)[1..] == xs[1..] + ys;
      AdmitAllAppend(Admit(d, xs[0], keep), xs[1..], ys, keep);
    }
  }

  /** Storing one admitted author with a new id. */
  lemma AdmitNew(d: AuthorDict, x: OAAuthor, f: seq<OAAuthor>, r: AuthorDict)
    requires IdOf(x) !in d.ids
    requires r == AuthorDict(d.authors + [x] + DedupFrom(f, IdOf, d.ids + {IdOf(x)}), d.ids + {IdOf(x)} + KeysOf(f, IdOf))
    ensures r == AuthorDict(d.authors + DedupFrom([x] + f, IdOf, d.ids), d.ids + KeysOf([x] + f, IdOf))
  {
    assert DedupFrom([x] + f, IdOf, d.ids) == [x] + DedupFrom(f, IdOf, d.ids + {IdOf(x)}) by {
      assert ([x] + f)[0] == x && ([x] + f)[1..] == f;
    }
    assert KeysOf([x] + f, IdOf) == {IdOf(x)} + KeysOf(f, IdOf) by {
      KeysOfAppend([x], f, IdOf);
      KeysOfSingleton(x, IdOf);
    }
    assert d.authors + [x] + DedupFrom(f, IdOf, d.ids + {IdOf(x)})
        == d.authors + ([x] + DedupFrom(f, IdOf, d.ids + {IdOf(x)}));
  }

  /** Skipping one admitted author whose id is already stored. */
  lemma AdmitKnown(d: AuthorDict, x: OAAuthor, f: seq<OAAuthor>, r: AuthorDict)
    requires IdOf(x) in d.ids
    requires r == AuthorDict(d.authors + DedupFrom(f, IdOf, d.ids), d.ids + KeysOf(f, IdOf))
    ensures r == AuthorDict(d.authors + DedupFrom([x] + f, IdOf, d.ids), d.ids + KeysOf([x] + f, IdOf))
  {
    assert DedupFrom([x] + f, IdOf, d.ids) == DedupFrom(f, IdOf, d.ids) by {
      assert ([x] + f)[0] == x && ([x] + f)[1..] == f;
    }
    assert KeysOf([x] + f, IdOf) == {IdOf(x)} + KeysOf(f, IdOf) by {
      KeysOfAppend([x], f, IdOf);
      KeysOfSingleton(x, IdOf);
    }
  }

  /** The dict the loop builds holds the keep-first de-duplication of the admitted authors. */
  lemma {:induction false} AdmitAllIsDedup(d: AuthorDict, xs: seq<OAAuthor>, keep: OAAuthor -> bool)
    ensures AdmitAll(d, xs, keep)
         == AuthorDict(d.authors + DedupFrom(Filter(xs, keep), IdOf, d.ids), d.ids + KeysOf(Filter(xs, keep), IdOf))
    decreases |xs|
  {
    if |xs| > 0 {
      var x := xs[0];
      var f := Filter(xs[1..], keep);
      var r := AdmitAll(d, xs, keep);
      assert r == AdmitAll(Admit(d, x, keep), xs[1..], keep);
      AdmitAllIsDedup(Admit(d, x, keep), xs[1..], keep);
      if !keep(x) {
        assert Filter(xs, keep) == f;
      } else if IdOf(x) !in d.ids {
        assert Filter(xs, keep) == [x] + f;
        AdmitNew(d, x, f, r);
      } else {
        assert Filter(xs, keep) == [x] + f;
        AdmitKnown(d, x, f, r);
      }
    } else {
      assert d.authors + [] == d.authors && d.ids + {} == d.ids;
    }
  }

  /** The page loop shared by both searches: the authors of every page it fetches, and why it stops. */
  method Paginate(server: string -> Page, maxResults: int) returns (fetched: seq<OAAuthor>, stop: Stop)
    ensures Crawl(fetched, stop) == CrawlFrom(server, Some("*"), 0, maxResults)
    ensures stop.Capped? ==> |fetched| >= maxResults
    ensures stop.EmptyPage? || stop.RequestError? ==> |fetched| < maxResults
  {
    var cursor: Option<string> := Some("*");
    var total := 0;
    fetched := [];
    ghost var whole := CrawlFrom(server, cursor, total, maxResults);
    ghost var rest := whole;
    assert fetched + rest.fetched == whole.fetched;
    while CursorLive(cursor) && total < maxResults
      invariant total == |fetched|
      invariant rest == CrawlFrom(server, cursor, total, maxResults)
      invariant whole.fetched == fetched + rest.fetched && whole.stop == rest.stop
      decreases maxResults - total
    {
      var page := server(cursor.value);
      if page.RequestFailed? {
        stop := RequestError;
        assert rest == Crawl([], stop);
        break;
      }
      if |page.results| == 0 {
        stop := EmptyPage;
        assert rest == Crawl([], stop);
        break;
      }
      CrawlUnfold(server, cursor, total, maxResults);
      ghost var next := CrawlFrom(server, page.nextCursor, total + |page.results|, maxResults);
      assert fetched + (page.results + next.fetched) == (fetched + page.results) + next.fetched;
      fetched := fetched + page.results;
      total := total + |page.results|;
      cursor := page.nextCursor;
      rest := next;
    }
    if !(CursorLive(cursor) && total < maxResults) {
      stop := if !CursorLive(cursor) then NoCursor else Capped;
    }
    assert fetched + [] == fetched;
  }

  /** The author has an id once the URL prefix is removed. */
  predicate HasId(a: OAAuthor) { IdOf(a) != "" }

  /** The first last-known institution is in Chile. */
  predicate FirstInstChilean(a: OAAuthor)
  {
    |a.lastKnown| > 0 && a.lastKnown[0].countryCode == Some("CL")
  }

  /**
   * `list(all_authors.values())` after the per-author loop over every fetched author. The
   * dict never influences which page is requested next, so filling it page by page inside
   * the crawl and filling it once from all fetched authors give the same dict.
   */
  function KeepFirst(fetched: seq<OAAuthor>, keep: OAAuthor -> bool): seq<OARow>
  {
    ParseAll(AdmitAll(AuthorDict([], {}), fetched, keep).authors)
  }

  /** The kept rows are the parses of the keep-first de-duplication of the admitted authors. */
  lemma KeepFirstIsDedup(fetched: seq<OAAuthor>, keep: OAAuthor -> bool)
    ensures KeepFirst(fetched, keep) == ParseAll(DedupBy(Filter(fetched, keep), IdOf))
  {
    AdmitAllIsDedup(AuthorDict([], {}), fetched, keep);
    assert [] + DedupBy(Filter(fetched, keep), IdOf) == DedupBy(Filter(fetched, keep), IdOf);
  }

  /** One row per id, each the parse of an author the crawl admitted. */
  lemma KeepFirstFacts(fetched: seq<OAAuthor>, keep: OAAuthor -> bool)
    ensures UniqueKeys(KeepFirst(fetched, keep), RowId)
    ensures |KeepFirst(fetched, keep)| == |DedupBy(Filter(fetched, keep), IdOf)|
    ensures forall k :: 0 <= k < |KeepFirst(fetched, keep)| ==>
              keep(DedupBy(Filter(fetched, keep), IdOf)[k])
              && KeepFirst(fetched, keep)[k] == ParseAuthor(DedupBy(Filter(fetched, keep), IdOf)[k])
  {
    var c := Filter(fetched, keep);
    var d := DedupBy(c, IdOf);
    KeepFirstIsDedup(fetched, keep);
    var rows := ParseAll(d);
    DedupFacts(c, IdOf);
    assert UniqueKeys(rows, RowId) by {
      assert forall i :: 0 <= i < |d| ==> RowId(rows[i]) == IdOf(d[i]);
    }
    assert forall k :: 0 <= k < |d| ==> keep(d[k]) by {
      FilterKeeps(fetched, keep);
      SubseqMembers(d, c);
    }
  }

  lemma FilterKeeps(fetched: seq<OAAuthor>, keep: OAAuthor -> bool)
    ensures forall x :: x in Filter(fetched, keep) ==> keep(x)
  {
  }

  /** Each row is the parse of the FIRST admitted author with its id. */
  lemma KeepFirstIsFirst(fetched: seq<OAAuthor>, keep: OAAuthor -> bool, k: nat)
    requires k < |KeepFirst(fetched, keep)|
    ensures exists i :: 0 <= i < |Filter(fetched, keep)|
              && KeepFirst(fetched, keep)[k] == ParseAuthor(Filter(fetched, keep)[i])
              && forall j :: 0 <= j < i ==> IdOf(Filter(fetched, keep)[j]) != IdOf(Filter(fetched, keep)[i])
  {
    var c := Filter(fetched, keep);
    var d := DedupBy(c, IdOf);
    KeepFirstIsDedup(fetched, keep);
    assert k < |d|;
    DedupKeepsFirst(c, IdOf, k);
    var i :| 0 <= i < |c| && c[i] == d[k] && forall j :: 0 <= j < i ==> IdOf(c[j]) != IdOf(c[i]);
    assert KeepFirst(fetched, keep)[k] == ParseAuthor(c[i]);
  }

  /** `get_authors_by_topics`: the topic crawl, keeping the first author per non-empty id. */
  method GetAuthorsByTopics(server: string -> Page, maxResults: int)
    returns (rows: seq<OARow>, fetched: seq<OAAuthor>, stop: Stop)
    ensures Crawl(fetched, stop) == CrawlFrom(server, Some("*"), 0, maxResults)
    ensures rows == KeepFirst(fetched, HasId)
    ensures UniqueKeys(rows, RowId)
    ensures forall i :: 0 <= i < |rows| ==> rows[i].openalexId != ""
  {
    fetched, stop := Paginate(server, maxResults);
    var dict := AuthorDict([], {});
    var i := 0;
    while i < |fetched|
      invariant 0 <= i <= |fetched|
      invariant AdmitAll(dict, fetched[i..], HasId) == AdmitAll(AuthorDict([], {}), fetched, HasId)
    {
      assert fetched[i..][0] == fetched[i] && fetched[i..][1..] == fetched[i + 1..];
      dict := Admit(dict, fetched[i], HasId);
      i := i + 1;
    }
    rows := ParseAll(dict.authors);
    KeepFirstFacts(fetched, HasId);
    forall k | 0 <= k < |rows|
      ensures rows[k].openalexId != ""
    {
      assert HasId(DedupBy(Filter(fetched, HasId), IdOf)[k]);
    }
  }

  /** All authors fetched by the institution crawls, institution after institution. */
  function CrawlAll(server: string -> string -> Page, terms: seq<string>, maxPerTerm: int): seq<OAAuthor>
  {
    if |terms| == 0 then []
    else CrawlAll(server, terms[..|terms| - 1], maxPerTerm)
         + CrawlFrom(server(terms[|terms| - 1]), Some("*"), 0, maxPerTerm).fetched
  }

  /**
   * `get_authors_by_institution_search`: one crawl per institution, sharing one dict; an
   * author is added when its first last-known institution is Chilean and its id is new.
   */
  method GetAuthorsByInstitution(server: string -> string -> Page, maxPerTerm: int)
    returns (rows: seq<OARow>, fetched: seq<OAAuthor>)
    ensures fetched == CrawlAll(server, CHILEAN_INSTITUTIONS, maxPerTerm)
    ensures rows == KeepFirst(fetched, FirstInstChilean)
    ensures UniqueKeys(rows, RowId)
    ensures forall i :: 0 <= i < |rows| ==> rows[i].paisInstitucion == "CL"
  {
    var terms := CHILEAN_INSTITUTIONS;
    fetched := [];
    var i := 0;
    while i < |terms|
      invariant 0 <= i <= |terms|
      invariant fetched == CrawlAll(server, terms[..i], maxPerTerm)
    {
      var more, stop := Paginate(server(terms[i]), maxPerTerm);
      assert terms[..i + 1][..i] == terms[..i];
      fetched := fetched + more;
      i := i + 1;
    }
    assert terms[..|terms|] == terms;
    rows := KeepFirst(fetched, FirstInstChilean);
    KeepFirstFacts(fetched, FirstInstChilean);
    forall k | 0 <= k < |rows|
      ensures rows[k].paisInstitucion == "CL"
    {
      ParseAuthorDefaults(DedupBy(Filter(fetched, FirstInstChilean), IdOf)[k]);
    }
  }

  // ---------------------------------------------------------------- merge in main

  /** Position of the row with id `id` in the dict's insertion order, or -1. */
  function FindId(acc: seq<OARow>, id: string): (p: int)
    ensures -1 <= p < |acc|
    ensures p >= 0 ==> acc[p].openalexId == id
    ensures p == -1 <==> forall j :: 0 <= j < |acc| ==> acc[j].openalexId != id
  {
    if |acc| == 0 then -1
    else if acc[0].openalexId == id then 0
    else
      var k := FindId(acc[1..], id);
      assert forall j :: 1 <= j < |acc| ==> acc[j] == acc[1..][j - 1];
      if k < 0 then -1 else k + 1
  }

  /** One step of the merge loop: add a new id, or replace the stored row when strictly more cited. */
  function MergeStep(acc: seq<OARow>, x: OARow): seq<OARow>
  {
    var p := FindId(acc, x.openalexId);
    if p < 0 then acc + [x]
    else if x.citas > acc[p].citas then acc[p := x]
    else acc
  }

  /** The merge loop of `main` over `authors_by_topics + authors_by_inst`. */
  function MergeByCitations(xs: seq<OARow>): seq<OARow>
  {
    if |xs| == 0 then [] else MergeStep(MergeByCitations(xs[..|xs| - 1]), xs[|xs| - 1])
  }

  function IdsOf(rs: seq<OARow>): (r: seq<string>)
    ensures |r| == |rs| && forall i :: 0 <= i < |rs| ==> r[i] == rs[i].openalexId
  {
    seq(|rs|, i requires 0 <= i < |rs| => rs[i].openalexId)
  }

  /**
   * `r` is the row the merge should keep for its id: no row with that id has more citations,
   * and `r` is the earliest one reaching that count.
   */
  predicate BestFor(xs: seq<OARow>, r: OARow)
  {
    (forall j :: 0 <= j < |xs| && xs[j].openalexId == r.openalexId ==> xs[j].citas <= r.citas)
    && exists i :: 0 <= i < |xs| && xs[i] == r
         && forall j :: 0 <= j < i && xs[j].openalexId == r.openalexId ==> xs[j].citas < r.citas
  }

  /** `FindId` fails exactly for an id the dict does not hold. */
  lemma FindIdKeys(m: seq<OARow>, id: string)
    ensures FindId(m, id) < 0 <==> id !in KeysOf(m, RowId)
  {
    if id in KeysOf(m, RowId) {
      var y :| y in m && y.openalexId == id;
      var j :| 0 <= j < |m| && m[j] == y;
    } else {
      forall j | 0 <= j < |m|
        ensures m[j].openalexId != id
      {
        assert m[j] in m;
      }
    }
  }

  /** A new id is appended at the end of the dict. */
  lemma MergeStepNew(m: seq<OARow>, x: OARow)
    requires UniqueKeys(m, RowId) && FindId(m, x.openalexId) < 0
    ensures MergeStep(m, x) == m + [x]
    ensures UniqueKeys(m + [x], RowId)
    ensures KeysOf(m + [x], RowId) == KeysOf(m, RowId) + {x.openalexId}
    ensures IdsOf(m + [x]) == IdsOf(m) + [x.openalexId]
  {
    KeysOfAppend(m, [x], RowId);
    assert KeysOf([x], RowId) == {x.openalexId} by {
      assert x in [x];
      forall k | k in KeysOf([x], RowId)
        ensures k == x.openalexId
      {
        var y :| y in [x] && RowId(y) == k;
      }
    }
  }

  /** A known id keeps its place in the dict, whichever row ends up stored there. */
  lemma MergeStepKnown(m: seq<OARow>, x: OARow)
    requires UniqueKeys(m, RowId) && FindId(m, x.openalexId) >= 0
    ensures IdsOf(MergeStep(m, x)) == IdsOf(m)
    ensures UniqueKeys(MergeStep(m, x), RowId)
    ensures KeysOf(MergeStep(m, x), RowId) == KeysOf(m, RowId)
  {
    var m' := MergeStep(m, x);
    assert |m'| == |m| && forall j :: 0 <= j < |m| ==> m'[j].openalexId == m[j].openalexId;
    forall y | y in m'
      ensures y.openalexId in KeysOf(m, RowId)
    {
      var j :| 0 <= j < |m'| && m'[j] == y;
      assert m[j] in m;
    }
    forall y | y in m
      ensures y.openalexId in KeysOf(m', RowId)
    {
      var j :| 0 <= j < |m| && m[j] == y;
      assert m'[j] in m';
    }
  }

  /** The merged dict has one row per id, every id of the input, in order of first appearance. */
  lemma {:induction false} MergeShape(xs: seq<OARow>)
    ensures UniqueKeys(MergeByCitations(xs), RowId)
    ensures KeysOf(MergeByCitations(xs), RowId) == KeysOf(xs, RowId)
    ensures IdsOf(MergeByCitations(xs)) == IdsOf(DedupBy(xs, RowId))
  {
    if |xs| > 0 {
      var init := xs[..|xs| - 1];
      var x := xs[|xs| - 1];
      MergeShape(init);
      assert xs == init + [x];
      assert DedupBy(xs, RowId)
          == DedupBy(init, RowId) + (if x.openalexId in KeysOf(init, RowId) then [] else [x]) by {
        DedupFromSnoc(init, x, RowId, {});
        assert {} + KeysOf(init, RowId) == KeysOf(init, RowId);
      }
      assert KeysOf(xs, RowId) == KeysOf(init, RowId) + {x.openalexId} by {
        KeysOfAppend(init, [x], RowId);
        KeysOfSingleton(x, RowId);
      }
      MergeShapeStep(MergeByCitations(init), DedupBy(init, RowId), init, x);
    }
  }

  /** One merge step keeps the shape `MergeShape` states, given that it held before. */
  lemma MergeShapeStep(m: seq<OARow>, d: seq<OARow>, init: seq<OARow>, x: OARow)
    requires UniqueKeys(m, RowId) && KeysOf(m, RowId) == KeysOf(init, RowId) && IdsOf(m) == IdsOf(d)
    ensures UniqueKeys(MergeStep(m, x), RowId)
    ensures KeysOf(MergeStep(m, x), RowId) == KeysOf(init, RowId) + {x.openalexId}
    ensures IdsOf(MergeStep(m, x)) == IdsOf(d + (if x.openalexId in KeysOf(init, RowId) then [] else [x]))
  {
    FindIdKeys(m, x.openalexId);
    if FindId(m, x.openalexId) < 0 {
      MergeStepNew(m, x);
      assert IdsOf(d + [x]) == IdsOf(d) + [x.openalexId];
    } else {
      MergeStepKnown(m, x);
      assert d + [] == d;
    }
  }

  /** A row stays the best for its id when rows are appended that do not beat it. */
  lemma BestForSnoc(init: seq<OARow>, x: OARow, r: OARow)
    requires BestFor(init, r)
    requires x.openalexId == r.openalexId ==> x.citas <= r.citas
    ensures BestFor(init + [x], r)
  {
    var xs := init + [x];
    var i :| 0 <= i < |init| && init[i] == r
              && forall j :: 0 <= j < i && init[j].openalexId == r.openalexId ==> init[j].citas < r.citas;
    assert xs[i] == r;
    forall j | 0 <= j < |xs| && xs[j].openalexId == r.openalexId
      ensures xs[j].citas <= r.citas
    {
      if j < |init| {
        assert xs[j] == init[j];
      }
    }
    assert forall j :: 0 <= j < i ==> xs[j] == init[j];
  }

  /** A newcomer with more citations than anything before it with its id is the best for that id. */
  lemma BestForNewcomer(init: seq<OARow>, x: OARow)
    requires forall j :: 0 <= j < |init| && init[j].openalexId == x.openalexId ==> init[j].citas < x.citas
    ensures BestFor(init + [x], x)
  {
    var xs := init + [x];
    assert xs[|init|] == x;
    assert forall j :: 0 <= j < |init| ==> xs[j] == init[j];
  }

  /**
   * Every merged row is the best for its id: the most-cited record, and on a tie in
   * citations the one seen first.
   */
  lemma {:induction false} MergeWinners(xs: seq<OARow>)
    ensures forall k :: 0 <= k < |MergeByCitations(xs)| ==> BestFor(xs, MergeByCitations(xs)[k])
  {
    if |xs| > 0 {
      var init := xs[..|xs| - 1];
      var x := xs[|xs| - 1];
      var m := MergeByCitations(init);
      MergeWinners(init);
      MergeShape(init);
      assert xs == init + [x];
      var p := FindId(m, x.openalexId);
      var m' := MergeStep(m, x);
      forall k | 0 <= k < |m'|
        ensures BestFor(xs, m'[k])
      {
        if p < 0 {
          if k < |m| {
            assert m'[k] == m[k];
            BestForSnoc(init, x, m[k]);
          } else {
            FindIdKeys(m, x.openalexId);
            assert forall j :: 0 <= j < |init| ==> init[j] in init;
            BestForNewcomer(init, x);
          }
        } else if k != p {
          assert m'[k] == m[k];
          assert RowId(m[k]) != RowId(m[p]);
          BestForSnoc(init, x, m[k]);
        } else if x.citas > m[p].citas {
          assert m'[k] == x;
          forall j | 0 <= j < |init| && init[j].openalexId == x.openalexId
            ensures init[j].citas < x.citas
          {
            assert BestFor(init, m[p]);
          }
          BestForNewcomer(init, x);
        } else {
          assert m'[k] == m[p];
          BestForSnoc(init, x, m[p]);
        }
      }
    }
  }

  /** Two copies of one author: the more-cited copy wins in either order, and a tie keeps the first. */
  lemma MergeExample()
    ensures var a := OARow("A1", Some(""), "Ana", "U", "CL", "", 10, 5, 100, 20, "", "", "", "");
            var b := a.(citas := 80, hIndex := 12);
            var c := a.(nombre := "Ana P.");
            MergeByCitations([a, b]) == [a] && MergeByCitations([b, a]) == [a]
            && MergeByCitations([a, c]) == [a] && MergeByCitations([c, a]) == [c]
  {
    var a := OARow("A1", Some(""), "Ana", "U", "CL", "", 10, 5, 100, 20, "", "", "", "");
    var b := a.(citas := 80, hIndex := 12);
    var c := a.(nombre := "Ana P.");
    assert [a, b][..1] == [a] && [b, a][..1] == [b] && [a, c][..1] == [a] && [c, a][..1] == [c];
    assert MergeByCitations([a]) == [a] by { assert [a][..0] == []; }
    assert MergeByCitations([b]) == [b] by { assert [b][..0] == []; }
    assert MergeByCitations([c]) == [c] by { assert [c][..0] == []; }
  }

  // ---------------------------------------------------------------- main

  /** The merged and filtered result of `main`, given the outcome of the two crawls. */
  function CombineSources(byTopics: seq<OARow>, byInstRaw: seq<OARow>): seq<OARow>
  {
    FilterSocialSciences(MergeByCitations(byTopics + FilterSocialSciences(byInstRaw, true)), true)
  }

  /**
   * What `main` writes: only strict social-science authors, one row per id, each the row with
   * the most citations among the rows of both sources sharing its id (the earliest on a tie).
   */
  lemma CombineSourcesFacts(byTopics: seq<OARow>, byInstRaw: seq<OARow>)
    ensures forall i :: 0 <= i < |CombineSources(byTopics, byInstRaw)| ==> StrictKeep(CombineSources(byTopics, byInstRaw)[i])
    ensures UniqueKeys(CombineSources(byTopics, byInstRaw), RowId)
    ensures forall i :: 0 <= i < |CombineSources(byTopics, byInstRaw)| ==>
              BestFor(byTopics + FilterSocialSciences(byInstRaw, true), CombineSources(byTopics, byInstRaw)[i])
  {
    var all := byTopics + FilterSocialSciences(byInstRaw, true);
    var merged := MergeByCitations(all);
    var rows := FilterSocialSciences(merged, true);
    MergeShape(all);
    MergeWinners(all);
    SubseqUniqueKeys(rows, merged, RowId);
    forall i | 0 <= i < |rows|
      ensures StrictKeep(rows[i]) && BestFor(all, rows[i])
    {
      var k :| 0 <= k < |merged| && merged[k] == rows[i];
    }
  }

  /**
   * `main`: crawl by topic (at most 2000 authors) and by institution (300 per institution),
   * keep the strict social-science authors of the second crawl, merge, and filter again.
   */
  method OpenAlexMain(topicServer: string -> Page, instServer: string -> string -> Page)
    returns (byTopics: seq<OARow>, byInst: seq<OARow>, rows: seq<OARow>)
    ensures byTopics == KeepFirst(CrawlFrom(topicServer, Some("*"), 0, MAX_TOPIC_RESULTS).fetched, HasId)
    ensures byInst == KeepFirst(CrawlAll(instServer, CHILEAN_INSTITUTIONS, MAX_PER_TERM), FirstInstChilean)
    ensures rows == CombineSources(byTopics, byInst)
    ensures forall i :: 0 <= i < |rows| ==> StrictKeep(rows[i])
    ensures UniqueKeys(rows, RowId)
    ensures forall i :: 0 <= i < |rows| ==> BestFor(byTopics + FilterSocialSciences(byInst, true), rows[i])
  {
    var fetched, stop;
    byTopics, fetched, stop := GetAuthorsByTopics(topicServer, MAX_TOPIC_RESULTS);
    var instFetched;
    byInst, instFetched := GetAuthorsByInstitution(instServer, MAX_PER_TERM);
    rows := CombineSources(byTopics, byInst);
    CombineSourcesFacts(byTopics, byInst);
  }
}
