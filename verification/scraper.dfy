/**
 * The `scholarly`-based Google Scholar scraper (`scraper.py`): turning a profile into a
 * record with defaults, the Chilean and social-science tests, the bounded searches and the
 * keep-first consolidation of `search_comprehensive`. The search engine, `scholarly.fill`
 * and the clock are parameters.
 */
module Scraper {
  import opened Wrappers
  import opened Text
  import opened Seqs
  import opened Records

  /**
   * A profile as `scholarly` hands it over: every key may be absent or `None`
   * (both read as `None` here).
   */
  datatype RawProfile = RawProfile(
    scholarId: Option<string>,
    name: Option<string>,
    affiliation: Option<string>,
    emailDomain: Option<string>,
    interests: Option<seq<string>>,
    hindex: Option<int>,
    hindex5y: Option<int>,
    i10index: Option<int>,
    i10index5y: Option<int>,
    citedby: Option<int>,
    citedby5y: Option<int>,
    urlPicture: Option<string>,
    homepage: Option<string>)

  /** `scholarly.fill(author, ...)`: `None` when it raises. */
  type Filler = RawProfile -> Option<RawProfile>

  // ---------------------------------------------------------------- _extract_author_data

  /** The dict built from a profile with `safe_get`, every missing value replaced by its default. */
  function WithDefaults(d: RawProfile, now: string): ScholarAuthor
  {
    ScholarAuthor(
      d.scholarId.GetOr(""), d.name.GetOr(""), d.affiliation.GetOr(""), d.emailDomain.GetOr(""),
      d.interests.GetOr([]),
      d.hindex.GetOr(0), d.hindex5y.GetOr(0), d.i10index.GetOr(0), d.i10index5y.GetOr(0),
      d.citedby.GetOr(0), d.citedby5y.GetOr(0),
      d.urlPicture.GetOr(""), d.homepage.GetOr(""), now)
  }

  /**
   * `_extract_author_data`: nothing for a missing profile; a profile not yet filled is
   * filled first (keeping the original when filling fails); a record with neither name nor
   * id is rejected.
   */
  function ExtractAuthorData(author: Option<RawProfile>, alreadyFilled: bool, fill: Filler, now: string): Option<ScholarAuthor>
  {
    if author.None? then None
    else
      var d := if alreadyFilled then author.value else fill(author.value).GetOr(author.value);
      var data := WithDefaults(d, now);
      if data.name == "" && data.scholarId == "" then None else Some(data)
  }

  /** The profile `scholarly` would return for a record: every key present. */
  function Profile(a: ScholarAuthor): RawProfile
  {
    RawProfile(
      Some(a.scholarId), Some(a.name), Some(a.affiliation), Some(a.emailDomain), Some(a.interests),
      Some(a.hIndex), Some(a.hIndex5y), Some(a.i10Index), Some(a.i10Index5y),
      Some(a.citations), Some(a.citations5y), Some(a.urlPicture), Some(a.homepage))
  }

  /**
   * Extraction inverts `Profile`: a complete filled profile comes back as the record it
   * describes, unless both its name and its id are empty.
   */
  lemma ExtractProfile(a: ScholarAuthor, fill: Filler)
    ensures ExtractAuthorData(Some(Profile(a)), true, fill, a.extractedAt)
            == if a.name == "" && a.scholarId == "" then None else Some(a)
  {
  }

  /**
   * The guards of `_extract_author_data`: `None` in, `None` out; a record is produced exactly
   * when the (filled) profile has a name or an id; a missing metric reads 0, a missing list
   * is empty and a missing text is "".
   */
  lemma ExtractFacts(author: Option<RawProfile>, alreadyFilled: bool, fill: Filler, now: string)
    ensures author.None? ==> ExtractAuthorData(author, alreadyFilled, fill, now).None?
    ensures author.Some? ==>
              var d := if alreadyFilled then author.value else fill(author.value).GetOr(author.value);
              (ExtractAuthorData(author, alreadyFilled, fill, now).Some? <==>
                 d.name.GetOr("") != "" || d.scholarId.GetOr("") != "")
              && (ExtractAuthorData(author, alreadyFilled, fill, now).Some? ==>
                   var r := ExtractAuthorData(author, alreadyFilled, fill, now).value;
                   (d.hindex.None? ==> r.hIndex == 0) && (d.citedby.None? ==> r.citations == 0)
                   && (d.i10index.None? ==> r.i10Index == 0) && (d.interests.None? ==> r.interests == [])
                   && (d.affiliation.None? ==> r.affiliation == "") && r.extractedAt == now)
  {
  }

  /** `get_author_by_id`: look the id up, fill the profile (keeping it when filling fails), extract. */
  function GetAuthorById(lookup: string -> Option<RawProfile>, fill: Filler, now: string, scholarId: string): Option<ScholarAuthor>
  {
    match lookup(scholarId)
    case None => None
    case Some(author) =>
      var filled := fill(author).GetOr(author);
      ExtractAuthorData(Some(filled), true, fill, now)
  }

  /** Filling before extraction with `already_filled=True` is the same as letting extraction fill. */
  lemma GetAuthorByIdIsExtract(lookup: string -> Option<RawProfile>, fill: Filler, now: string, scholarId: string)
    ensures GetAuthorById(lookup, fill, now, scholarId) == ExtractAuthorData(lookup(scholarId), false, fill, now)
  {
  }

  // ---------------------------------------------------------------- _is_chilean

  const CHILE_KEYWORDS: seq<string> := [
    "chile", "chilena", "chileno", "santiago", "valparaíso",
    "concepción", "uchile", "puc", "udp", "uai", "usach"
  ]

  /** The keyword loop: does some keyword occur in the affiliation or in the e-mail domain? */
  predicate AnyKeywordIn(keywords: seq<string>, affiliation: string, email: string)
  {
    |keywords| > 0 &&
    (IsSubstring(keywords[0], affiliation) || IsSubstring(keywords[0], email)
     || AnyKeywordIn(keywords[1..], affiliation, email))
  }

  lemma {:induction false} AnyKeywordInIff(keywords: seq<string>, affiliation: string, email: string)
    ensures AnyKeywordIn(keywords, affiliation, email) <==>
              exists i :: 0 <= i < |keywords| &&
                (IsSubstring(keywords[i], affiliation) || IsSubstring(keywords[i], email))
  {
    if |keywords| > 0 {
      AnyKeywordInIff(keywords[1..], affiliation, email);
      assert forall i :: 1 <= i < |keywords| ==> keywords[i] == keywords[1..][i - 1];
      if AnyKeywordIn(keywords[1..], affiliation, email) {
        var i :| 0 <= i < |keywords[1..]| &&
          (IsSubstring(keywords[1..][i], affiliation) || IsSubstring(keywords[1..][i], email));
        assert keywords[i + 1] == keywords[1..][i];
      }
    }
  }

  /** `_is_chilean`, on the lower-cased affiliation and e-mail domain. */
  predicate IsChilean(a: ScholarAuthor)
  {
    var affiliation := Lower(a.affiliation);
    var email := Lower(a.emailDomain);
    AnyKeywordIn(CHILE_KEYWORDS, affiliation, email) || IsSubstring(".cl", email)
  }

  /** An author is Chilean exactly when a keyword occurs in either text, or ".cl" in the e-mail domain. */
  lemma IsChileanIff(a: ScholarAuthor)
    ensures IsChilean(a) <==>
              (exists i :: 0 <= i < |CHILE_KEYWORDS| &&
                 (IsSubstring(CHILE_KEYWORDS[i], Lower(a.affiliation)) || IsSubstring(CHILE_KEYWORDS[i], Lower(a.emailDomain))))
              || IsSubstring(".cl", Lower(a.emailDomain))
  {
    AnyKeywordInIff(CHILE_KEYWORDS, Lower(a.affiliation), Lower(a.emailDomain));
  }

  // ---------------------------------------------------------------- _is_social_science

  function LowerAll(xs: seq<string>): (r: seq<string>)
    ensures |r| == |xs| && forall i :: 0 <= i < |xs| ==> r[i] == Lower(xs[i])
  {
    seq(|xs|, i requires 0 <= i < |xs| => Lower(xs[i]))
  }

  /** An interest and a discipline match when either is a substring of the other. */
  predicate Related(interest: string, discipline: string)
  {
    IsSubstring(discipline, interest) || IsSubstring(interest, discipline)
  }

  /** The inner loop: does the interest match some discipline? */
  predicate MatchesSome(interest: string, disciplines: seq<string>)
  {
    |disciplines| > 0 && (Related(interest, disciplines[0]) || MatchesSome(interest, disciplines[1..]))
  }

  /** The outer loop over the interests. */
  predicate AnyInterestMatches(interests: seq<string>, disciplines: seq<string>)
  {
    |interests| > 0 && (MatchesSome(interests[0], disciplines) || AnyInterestMatches(interests[1..], disciplines))
  }

  /** The second loop: does some discipline occur in the affiliation? */
  predicate AnyIn(disciplines: seq<string>, text: string)
  {
    |disciplines| > 0 && (IsSubstring(disciplines[0], text) || AnyIn(disciplines[1..], text))
  }

  /** `_is_social_science`, everything lower-cased. */
  predicate IsSocialScience(a: ScholarAuthor, disciplines: seq<string>)
  {
    var ds := LowerAll(disciplines);
    AnyInterestMatches(LowerAll(a.interests), ds) || AnyIn(ds, Lower(a.affiliation))
  }

  lemma {:induction false} MatchesSomeIff(interest: string, ds: seq<string>)
    ensures MatchesSome(interest, ds) <==> exists j :: 0 <= j < |ds| && Related(interest, ds[j])
  {
    if |ds| > 0 {
      MatchesSomeIff(interest, ds[1..]);
      assert forall j :: 1 <= j < |ds| ==> ds[j] == ds[1..][j - 1];
      if MatchesSome(interest, ds[1..]) {
        var j :| 0 <= j < |ds[1..]| && Related(interest, ds[1..][j]);
        assert ds[j + 1] == ds[1..][j];
      }
    }
  }

  lemma {:induction false} AnyInterestMatchesIff(ins: seq<string>, ds: seq<string>)
    ensures AnyInterestMatches(ins, ds) <==>
              exists i, j :: 0 <= i < |ins| && 0 <= j < |ds| && Related(ins[i], ds[j])
  {
    if |ins| > 0 {
      MatchesSomeIff(ins[0], ds);
      AnyInterestMatchesIff(ins[1..], ds);
      if AnyInterestMatches(ins[1..], ds) {
        var i, j :| 0 <= i < |ins[1..]| && 0 <= j < |ds| && Related(ins[1..][i], ds[j]);
        assert ins[i + 1] == ins[1..][i];
      }
      if exists i, j :: 0 <= i < |ins| && 0 <= j < |ds| && Related(ins[i], ds[j]) {
        var i, j :| 0 <= i < |ins| && 0 <= j < |ds| && Related(ins[i], ds[j]);
        if i > 0 {
          assert ins[1..][i - 1] == ins[i];
        }
      }
    }
  }

  lemma {:induction false} AnyInIff(ds: seq<string>, text: string)
    ensures AnyIn(ds, text) <==> exists j :: 0 <= j < |ds| && IsSubstring(ds[j], text)
  {
    if |ds| > 0 {
      AnyInIff(ds[1..], text);
      assert forall j :: 1 <= j < |ds| ==> ds[j] == ds[1..][j - 1];
      if AnyIn(ds[1..], text) {
        var j :| 0 <= j < |ds[1..]| && IsSubstring(ds[1..][j], text);
        assert ds[j + 1] == ds[1..][j];
      }
    }
  }

  /**
   * An author is social science exactly when some lower-cased interest and discipline are
   * substrings one of the other, or some lower-cased discipline occurs in the affiliation.
   */
  lemma IsSocialScienceIff(a: ScholarAuthor, disciplines: seq<string>)
    ensures IsSocialScience(a, disciplines) <==>
              (exists i, j :: 0 <= i < |a.interests| && 0 <= j < |disciplines|
                 && Related(Lower(a.interests[i]), Lower(disciplines[j])))
              || (exists j :: 0 <= j < |disciplines| && IsSubstring(Lower(disciplines[j]), Lower(a.affiliation)))
  {
    var ins, ds := LowerAll(a.interests), LowerAll(disciplines);
    AnyInterestMatchesIff(ins, ds);
    AnyInIff(ds, Lower(a.affiliation));
  }

  /** An empty interest is a substring of every discipline, so it admits anyone while a discipline is listed. */
  lemma EmptyInterestAdmits(a: ScholarAuthor, disciplines: seq<string>)
    requires "" in a.interests && |disciplines| > 0
    ensures IsSocialScience(a, disciplines)
  {
    var i :| 0 <= i < |a.interests| && a.interests[i] == "";
    assert Lower(a.interests[i]) == "";
    SubstringAt("", Lower(disciplines[0]), 0);
    IsSocialScienceIff(a, disciplines);
  }

  // ---------------------------------------------------------------- searches

  /** Extract every profile of a result list, dropping the ones extraction rejects and keeping all the others. */
  function ExtractAll(results: seq<RawProfile>, fill: Filler, now: string): (r: seq<ScholarAuthor>)
    ensures |r| <= |results|
    ensures forall i :: 0 <= i < |r| ==>
              exists j :: 0 <= j < |results| && ExtractAuthorData(Some(results[j]), false, fill, now) == Some(r[i])
    ensures forall i :: 0 <= i < |r| ==> r[i].name != "" || r[i].scholarId != ""
    ensures forall j :: 0 <= j < |results| && ExtractAuthorData(Some(results[j]), false, fill, now).Some? ==>
              ExtractAuthorData(Some(results[j]), false, fill, now).value in r
  {
    if |results| == 0 then []
    else
      var rest := ExtractAll(results[1..], fill, now);
      assert forall j :: 1 <= j < |results| ==> results[j] == results[1..][j - 1];
      match ExtractAuthorData(Some(results[0]), false, fill, now)
      case None => rest
      case Some(a) => [a] + rest
  }

  /** `search_by_affiliation`: at most `max_results` profiles are read, and every one that extracts is listed. */
  function SearchByAffiliation(results: seq<RawProfile>, maxResults: int, fill: Filler, now: string): (r: seq<ScholarAuthor>)
    ensures |r| <= |results| && (maxResults <= 0 ==> r == []) && (maxResults > 0 ==> |r| <= maxResults)
    ensures forall i :: 0 <= i < |r| ==>
              exists j :: 0 <= j < |results| && j < maxResults
                && ExtractAuthorData(Some(results[j]), false, fill, now) == Some(r[i])
    ensures forall j :: 0 <= j < |results| && j < maxResults && ExtractAuthorData(Some(results[j]), false, fill, now).Some? ==>
              ExtractAuthorData(Some(results[j]), false, fill, now).value in r
  {
    var read := Take(results, maxResults);
    assert forall j :: 0 <= j < |read| ==> read[j] == results[j];
    ExtractAll(read, fill, now)
  }

  /**
   * `search_by_keyword_and_location`: the query is the keyword and the location separated by
   * a space; at most `max_results` profiles are read and only Chilean authors kept.
   */
  function SearchByKeywordAndLocation(search: string -> seq<RawProfile>, keyword: string, location: string,
                                      maxResults: int, fill: Filler, now: string): (r: seq<ScholarAuthor>)
    ensures (maxResults <= 0 ==> r == []) && (maxResults > 0 ==> |r| <= maxResults)
    ensures forall i :: 0 <= i < |r| ==> IsChilean(r[i])
    ensures forall i :: 0 <= i < |r| ==> r[i] in SearchByAffiliation(search(keyword + " " + location), maxResults, fill, now)
    ensures forall a :: a in SearchByAffiliation(search(keyword + " " + location), maxResults, fill, now) && IsChilean(a) ==> a in r
  {
    Filter(SearchByAffiliation(search(keyword + " " + location), maxResults, fill, now), IsChilean)
  }

  /** The university searches, one after the other. */
  function UniversityHits(search: string -> seq<RawProfile>, universities: seq<string>, maxPerSearch: int,
                          fill: Filler, now: string): seq<ScholarAuthor>
  {
    if |universities| == 0 then []
    else SearchByAffiliation(search(universities[0]), maxPerSearch, fill, now)
         + UniversityHits(search, universities[1..], maxPerSearch, fill, now)
  }

  /** The discipline searches, each restricted to Chile. */
  function DisciplineHits(search: string -> seq<RawProfile>, disciplines: seq<string>, maxPerSearch: int,
                          fill: Filler, now: string): seq<ScholarAuthor>
  {
    if |disciplines| == 0 then []
    else SearchByKeywordAndLocation(search, disciplines[0], "Chile", maxPerSearch, fill, now)
         + DisciplineHits(search, disciplines[1..], maxPerSearch, fill, now)
  }

  lemma {:induction false} DisciplineHitsChilean(search: string -> seq<RawProfile>, disciplines: seq<string>,
                                                 maxPerSearch: int, fill: Filler, now: string)
    ensures forall a :: a in DisciplineHits(search, disciplines, maxPerSearch, fill, now) ==> IsChilean(a)
  {
    if |disciplines| > 0 {
      DisciplineHitsChilean(search, disciplines[1..], maxPerSearch, fill, now);
    }
  }

  predicate HasScholarId(a: ScholarAuthor) { a.scholarId != "" }

  /** A university hit enters the dict only with an id and a social-science profile. */
  function UniversityAdmits(disciplines: seq<string>): ScholarAuthor -> bool
  {
    a => HasScholarId(a) && IsSocialScience(a, disciplines)
  }

  /**
   * `search_comprehensive`: the dict keyed by `scholar_id`, filled first from the university
   * searches (social-science profiles only) and then from the discipline searches, an id
   * already present never being replaced.
   */
  method SearchComprehensive(search: string -> seq<RawProfile>, fill: Filler, now: string,
                             disciplines: seq<string>, universities: seq<string>, maxPerSearch: int)
    returns (authors: seq<ScholarAuthor>)
    ensures var uni := UniversityHits(search, universities, maxPerSearch, fill, now);
            var disc := DisciplineHits(search, disciplines, maxPerSearch, fill, now);
            authors == DedupBy(Filter(uni, UniversityAdmits(disciplines)) + Filter(disc, HasScholarId), ScholarId)
    ensures UniqueKeys(authors, ScholarId)
    ensures forall a :: a in authors ==> a.scholarId != ""
    ensures forall a :: a in authors ==>
              (a in UniversityHits(search, universities, maxPerSearch, fill, now) && IsSocialScience(a, disciplines))
              || (a in DisciplineHits(search, disciplines, maxPerSearch, fill, now) && IsChilean(a))
    ensures KeysOf(authors, ScholarId) ==
              KeysOf(Filter(UniversityHits(search, universities, maxPerSearch, fill, now), UniversityAdmits(disciplines)), ScholarId)
              + KeysOf(Filter(DisciplineHits(search, disciplines, maxPerSearch, fill, now), HasScholarId), ScholarId)
  {
    var uni := UniversityHits(search, universities, maxPerSearch, fill, now);
    var disc := DisciplineHits(search, disciplines, maxPerSearch, fill, now);
    var candidates := Filter(uni, UniversityAdmits(disciplines)) + Filter(disc, HasScholarId);
    authors := DedupLoop(candidates, ScholarId);
    DedupFacts(candidates, ScholarId);
    SubseqMembers(authors, candidates);
    KeysOfAppend(Filter(uni, UniversityAdmits(disciplines)), Filter(disc, HasScholarId), ScholarId);
    DisciplineHitsChilean(search, disciplines, maxPerSearch, fill, now);
  }
}
