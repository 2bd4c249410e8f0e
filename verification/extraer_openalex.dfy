/**
 * The second OpenAlex extractor (`extraer_openalex.py`): the social-science test on an
 * author's topics and concepts, the record built for each admitted author, and the
 * de-duplication and ordering of the final table.
 */
module ExtraerOpenAlex {
  import opened Wrappers
  import opened Text
  import opened Seqs
  import opened OpenAlexJson
  import ProcesarRanking

  const ORCID_PREFIX: string := "https://orcid.org/"

  /** The download filter asks the API for `summary_stats.h_index:>1`. */
  const H_INDEX_MIN_DOWNLOAD: int := 1

  const DOMINIOS_CS: set<string> := {"Social Sciences"}

  const CAMPOS_CS: set<string> := {
    "Sociology", "Political Science", "Economics", "Psychology",
    "Education", "Law", "Business", "Geography", "Anthropology",
    "Communication", "Social Work", "Public Policy", "Demography",
    "Gender Studies", "Urban Studies", "Development Studies",
    "Public Administration", "Social Psychology", "Criminology",
    "Political Economy", "International Relations"
  }

  // ---------------------------------------------------------------- es_ciencias_sociales

  function TopicField(t: Topic): string { NameOf(t.field) }

  function TopicDomain(t: Topic): string { NameOf(t.domain) }

  /** A topic admits the author by its domain or by its field. */
  predicate TopicMatches(t: Topic)
  {
    TopicDomain(t) in DOMINIOS_CS || TopicField(t) in CAMPOS_CS
  }

  /** A concept admits the author with a score above 40 and a social-science name. */
  predicate ConceptMatches(c: Concept)
  {
    c.score.GetOr(0.0) > 40.0 && c.displayName.GetOr("") in CAMPOS_CS
  }

  /** Index of the first matching topic, or -1. */
  function FirstTopic(ts: seq<Topic>): (k: int)
    ensures -1 <= k < |ts|
    ensures k >= 0 ==> TopicMatches(ts[k]) && forall j :: 0 <= j < k ==> !TopicMatches(ts[j])
    ensures k == -1 <==> forall j :: 0 <= j < |ts| ==> !TopicMatches(ts[j])
  {
    if |ts| == 0 then -1
    else if TopicMatches(ts[0]) then 0
    else
      var k := FirstTopic(ts[1..]);
      assert forall j :: 1 <= j < |ts| ==> ts[j] == ts[1..][j - 1];
      if k < 0 then -1 else k + 1
  }

  /** Index of the first matching concept, or -1. */
  function FirstConcept(cs: seq<Concept>): (k: int)
    ensures -1 <= k < |cs|
    ensures k >= 0 ==> ConceptMatches(cs[k]) && forall j :: 0 <= j < k ==> !ConceptMatches(cs[j])
    ensures k == -1 <==> forall j :: 0 <= j < |cs| ==> !ConceptMatches(cs[j])
  {
    if |cs| == 0 then -1
    else if ConceptMatches(cs[0]) then 0
    else
      var k := FirstConcept(cs[1..]);
      assert forall j :: 1 <= j < |cs| ==> cs[j] == cs[1..][j - 1];
      if k < 0 then -1 else k + 1
  }

  /** `es_ciencias_sociales`: the first five topics first, then the first ten concepts. */
  function EsCienciasSociales(a: OAAuthor): (bool, string)
  {
    var ts := SliceTo(a.topics, 5);
    var cs := SliceTo(a.xConcepts, 10);
    var t := FirstTopic(ts);
    if t >= 0 then (true, TopicField(ts[t]))
    else
      var c := FirstConcept(cs);
      if c >= 0 then (true, cs[c].displayName.GetOr("")) else (false, "")
  }

  /**
   * The first of the first five topics whose domain or field is social science decides,
   * with that topic's field; only when none does are the first ten concepts consulted, and
   * the first one scoring above 40 with a listed name decides, with its name.
   */
  lemma EsCienciasSocialesFirstMatch(a: OAAuthor)
    ensures forall i :: 0 <= i < |a.topics| && i < 5 && TopicMatches(a.topics[i])
              && (forall j :: 0 <= j < i ==> !TopicMatches(a.topics[j]))
              ==> EsCienciasSociales(a) == (true, TopicField(a.topics[i]))
    ensures (forall i :: 0 <= i < |a.topics| && i < 5 ==> !TopicMatches(a.topics[i])) ==>
              forall i :: 0 <= i < |a.xConcepts| && i < 10 && ConceptMatches(a.xConcepts[i])
                && (forall j :: 0 <= j < i ==> !ConceptMatches(a.xConcepts[j]))
                ==> EsCienciasSociales(a) == (true, a.xConcepts[i].displayName.GetOr(""))
    ensures EsCienciasSociales(a).0 <==>
              (exists i :: 0 <= i < |a.topics| && i < 5 && TopicMatches(a.topics[i]))
              || (exists i :: 0 <= i < |a.xConcepts| && i < 10 && ConceptMatches(a.xConcepts[i]))
    ensures !EsCienciasSociales(a).0 ==> EsCienciasSociales(a).1 == ""
  {
    var ts := SliceTo(a.topics, 5);
    var cs := SliceTo(a.xConcepts, 10);
    assert forall i :: 0 <= i < |ts| ==> ts[i] == a.topics[i];
    assert forall i :: 0 <= i < |cs| ==> cs[i] == a.xConcepts[i];
    forall i | 0 <= i < |a.topics| && i < 5 && TopicMatches(a.topics[i])
               && (forall j :: 0 <= j < i ==> !TopicMatches(a.topics[j]))
      ensures EsCienciasSociales(a) == (true, TopicField(a.topics[i]))
    {
      assert FirstTopic(ts) == i;
    }
    if forall i :: 0 <= i < |a.topics| && i < 5 ==> !TopicMatches(a.topics[i]) {
      forall i | 0 <= i < |a.xConcepts| && i < 10 && ConceptMatches(a.xConcepts[i])
                 && (forall j :: 0 <= j < i ==> !ConceptMatches(a.xConcepts[j]))
        ensures EsCienciasSociales(a) == (true, a.xConcepts[i].displayName.GetOr(""))
      {
        assert FirstTopic(ts) == -1;
        assert FirstConcept(cs) == i;
      }
    }
  }

  // ---------------------------------------------------------------- per-author record

  /** One row of the table `get_authors_chile` returns; the rounded citedness column is not modelled. */
  datatype OpenAlexRecord = OpenAlexRecord(
    openalexId: string,
    nombre: string,
    orcid: string,
    hIndex: int,
    i10Index: int,
    citedByCount: int,
    worksCount: int,
    institucion: string,
    campoPrincipal: string,
    pais: string)

  /** Index of the first last-known institution with country code "CL", or -1. */
  function FirstChilean(insts: seq<Institution>): (k: int)
    ensures -1 <= k < |insts|
    ensures k >= 0 ==> insts[k].countryCode == Some("CL") && forall j :: 0 <= j < k ==> insts[j].countryCode != Some("CL")
    ensures k == -1 <==> forall j :: 0 <= j < |insts| ==> insts[j].countryCode != Some("CL")
  {
    if |insts| == 0 then -1
    else if insts[0].countryCode == Some("CL") then 0
    else
      var k := FirstChilean(insts[1..]);
      assert forall j :: 1 <= j < |insts| ==> insts[j] == insts[1..][j - 1];
      if k < 0 then -1 else k + 1
  }

  /** The name of the first Chilean institution, "" when there is none. */
  function ChileanInstitution(a: OAAuthor): string
  {
    var k := FirstChilean(a.lastKnown);
    if k >= 0 then a.lastKnown[k].displayName.GetOr("") else ""
  }

  /** `(author.get("orcid") or "").replace("https://orcid.org/", "")`. */
  function CleanOrcid(o: JsonStr): string
  {
    match o
    case JStr(s) => ReplaceAll(s, ORCID_PREFIX, "")
    case _ => ""
  }

  /** The body of the per-author loop: `None` where the loop `continue`s. */
  function BuildRecord(a: OAAuthor): Option<OpenAlexRecord>
  {
    var (esCs, campo) := EsCienciasSociales(a);
    if !esCs then None
    else
      var instName := ChileanInstitution(a);
      if instName == "" then None
      else
        Some(OpenAlexRecord(
          a.id.GetOr(""),
          a.displayName.GetOr(""),
          CleanOrcid(a.orcid),
          StatOr0(a.summaryStats, HIndexOf),
          StatOr0(a.summaryStats, I10IndexOf),
          a.citedByCount.GetOr(0),
          a.worksCount.GetOr(0),
          instName,
          campo,
          "CL"))
  }

  /**
   * A record is emitted exactly for a social-science author whose first Chilean institution
   * has a name; it names that institution, carries the matched field and the country "CL".
   */
  lemma BuildRecordFacts(a: OAAuthor)
    ensures BuildRecord(a).Some? <==>
              EsCienciasSociales(a).0
              && exists k :: 0 <= k < |a.lastKnown| && a.lastKnown[k].countryCode == Some("CL")
                   && (forall j :: 0 <= j < k ==> a.lastKnown[j].countryCode != Some("CL"))
                   && a.lastKnown[k].displayName.GetOr("") != ""
    ensures BuildRecord(a).Some? ==>
              BuildRecord(a).value.pais == "CL"
              && BuildRecord(a).value.campoPrincipal == EsCienciasSociales(a).1
              && BuildRecord(a).value.institucion == a.lastKnown[FirstChilean(a.lastKnown)].displayName.GetOr("")
    ensures (forall k :: 0 <= k < |a.lastKnown| ==> a.lastKnown[k].countryCode != Some("CL")) ==> BuildRecord(a).None?
  {
    var k := FirstChilean(a.lastKnown);
    if EsCienciasSociales(a).0 && k >= 0 && a.lastKnown[k].displayName.GetOr("") != "" {
      assert BuildRecord(a).Some?;
    }
  }

  /** A missing or null ORCID becomes "", and the URL prefix of a present one is removed. */
  lemma BuildRecordOrcid(a: OAAuthor, rest: string)
    requires BuildRecord(a).Some?
    ensures a.orcid.Null? || a.orcid.Absent? ==> BuildRecord(a).value.orcid == ""
    ensures a.orcid == JStr(ORCID_PREFIX + rest) && !IsSubstring(ORCID_PREFIX, rest) ==> BuildRecord(a).value.orcid == rest
  {
    if a.orcid == JStr(ORCID_PREFIX + rest) && !IsSubstring(ORCID_PREFIX, rest) {
      ReplacePrefix(ORCID_PREFIX, rest);
    }
  }

  /** The per-author part of `get_authors_chile` over every fetched author, in order. */
  function Records(raws: seq<OAAuthor>): seq<OpenAlexRecord>
  {
    Successes(raws, BuildRecord)
  }

  /** Every collected record comes from a fetched author and is Chilean. */
  lemma RecordsFacts(raws: seq<OAAuthor>)
    ensures |Records(raws)| <= |raws|
    ensures forall i :: 0 <= i < |Records(raws)| ==> Records(raws)[i].pais == "CL"
    ensures forall j :: 0 <= j < |raws| && BuildRecord(raws[j]).Some? ==> BuildRecord(raws[j]).value in Records(raws)
  {
    forall i | 0 <= i < |Records(raws)|
      ensures Records(raws)[i].pais == "CL"
    {
      var j :| 0 <= j < |raws| && BuildRecord(raws[j]) == Some(Records(raws)[i]);
      BuildRecordFacts(raws[j]);
    }
  }

  // ---------------------------------------------------------------- main

  function RecordId(r: OpenAlexRecord): string { r.openalexId }

  function HKey(r: OpenAlexRecord): (int, int) { (r.hIndex, 0) }

  /**
   * `main`: nothing when no author was collected; otherwise one record per `openalex_id`
   * (the first), ordered by `h_index` descending.
   */
  function ExtraerMain(records: seq<OpenAlexRecord>): (r: Option<seq<OpenAlexRecord>>)
    ensures r.None? <==> |records| == 0
    ensures r.Some? ==> multiset(r.value) == multiset(DedupBy(records, RecordId))
    ensures r.Some? ==> forall i, j :: 0 <= i < j < |r.value| ==> r.value[i].hIndex >= r.value[j].hIndex
  {
    if |records| == 0 then None
    else Some(SortDesc(DedupBy(records, RecordId), HKey))
  }

  /** The table has one record per id, covers every id, and only holds collected records. */
  lemma ExtraerMainFacts(records: seq<OpenAlexRecord>)
    requires |records| > 0
    ensures UniqueKeys(ExtraerMain(records).value, RecordId)
    ensures KeysOf(ExtraerMain(records).value, RecordId) == KeysOf(records, RecordId)
    ensures forall x :: x in ExtraerMain(records).value ==> x in records
  {
    var d := DedupBy(records, RecordId);
    var r := ExtraerMain(records).value;
    DedupFacts(records, RecordId);
    SubseqMembers(d, records);
    assert forall x :: x in r <==> x in d by {
      forall x
        ensures x in r <==> x in d
      {
        assert x in r <==> x in multiset(r);
        assert x in d <==> x in multiset(d);
      }
    }
    PermutationKeepsUnique(d, r, RecordId);
  }

  /**
   * The download filter and the ranking threshold disagree on h-index 1: the ranking keeps
   * such an author, but the download never asks for one.
   */
  lemma ThresholdsDiffer(h: int)
    ensures h >= ProcesarRanking.H_INDEX_MINIMO && !(h > H_INDEX_MIN_DOWNLOAD) <==> h == 1
  {
  }
}
