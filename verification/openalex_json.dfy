/**
 * The shape of one OpenAlex `/authors` result, as far as the pipeline reads it.
 * `None` stands for a key that is absent from the JSON object; the orcid field,
 * whose null and absent cases lead to different results, has three states.
 */
module OpenAlexJson {
  import opened Wrappers

  /** A nested object of which only `display_name` is read (`field`, `domain`). */
  datatype Named = Named(displayName: Option<string>)

  /** An entry of `last_known_institutions`. */
  datatype Institution = Institution(displayName: Option<string>, countryCode: Option<string>, ror: Option<string>)

  /** An entry of `topics`; `field` and `domain` may be missing. */
  datatype Topic = Topic(displayName: Option<string>, field: Option<Named>, domain: Option<Named>)

  /** The `summary_stats` object. */
  datatype Stats = Stats(hIndex: Option<int>, i10Index: Option<int>)

  /** An entry of `x_concepts`; the score is a percentage. */
  datatype Concept = Concept(displayName: Option<string>, score: Option<real>)

  /** A string-valued key that can be absent, JSON null, or a string. */
  datatype JsonStr = Absent | Null | JStr(s: string)

  datatype OAAuthor = OAAuthor(
    id: Option<string>,
    orcid: JsonStr,
    displayName: Option<string>,
    lastKnown: seq<Institution>,
    summaryStats: Option<Stats>,
    citedByCount: Option<int>,
    worksCount: Option<int>,
    topics: seq<Topic>,
    xConcepts: seq<Concept>,
    worksApiUrl: Option<string>)

  /** `obj.get("display_name", "")` on an optional nested object: "" when either level is missing. */
  function NameOf(n: Option<Named>): string
  {
    if n.Some? then n.value.displayName.GetOr("") else ""
  }

  /** `summary_stats.get(key, 0)` with a missing `summary_stats` read as `{}`. */
  function StatOr0(s: Option<Stats>, pick: Stats -> Option<int>): int
  {
    if s.Some? then pick(s.value).GetOr(0) else 0
  }

  function HIndexOf(s: Stats): Option<int> { s.hIndex }

  function I10IndexOf(s: Stats): Option<int> { s.i10Index }
}
