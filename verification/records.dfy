/**
 * The researcher record every Google Scholar backend produces, one per profile.
 * The per-year citation history (`cites_per_year`) is not modelled.
 */
module Records {
  datatype ScholarAuthor = ScholarAuthor(
    scholarId: string,
    name: string,
    affiliation: string,
    emailDomain: string,
    interests: seq<string>,
    hIndex: int,
    hIndex5y: int,
    i10Index: int,
    i10Index5y: int,
    citations: int,
    citations5y: int,
    urlPicture: string,
    homepage: string,
    extractedAt: string)

  function ScholarId(a: ScholarAuthor): string { a.scholarId }

  /** The `scholar_id` column of a list of records. */
  function ScholarIds(xs: seq<ScholarAuthor>): (r: seq<string>)
    ensures |r| == |xs| && forall i :: 0 <= i < |xs| ==> r[i] == xs[i].scholarId
  {
    seq(|xs|, i requires 0 <= i < |xs| => xs[i].scholarId)
  }
}
