# Ranking of social-science researchers in Chile — a Dafny model

This project models, in Dafny, the record-processing core of a small Python pipeline that
builds a ranking of social-science researchers affiliated with Chilean institutions. The
network, the file system, the console and the clock are replaced by parameters, so every
step becomes a pure function over sequences of flat researcher rows. Properties are proved
about those functions.

The pipeline has these parts, and there is one Dafny module per source file:

- **Acquisition from OpenAlex.**
  - `OpenAlexScraper` (`src/openalex_scraper.py`): turns an author object into a flat row (`parse_author`), walks the cursor-paginated topic and institution searches over an abstract server, filters the social sciences, and merges the two sources by OpenAlex id (more citations win, ties keep the earlier record).
  - `ExtraerOpenAlex` (`src/extraer_openalex.py`): the social-science test over topics and concepts, the per-author record with its first Chilean institution, and the de-duplicate-then-sort step of `main`.
- **Acquisition from Google Scholar, three ways.**
  - `Scraper` (`src/scraper.py`): the `scholarly` library's dicts with their defaults, the Chilean-affiliation and social-science tests, and the keyword, affiliation and comprehensive searches.
  - `ScraperAlt` (`src/scraper_alt.py`): profile pages, given as pre-extracted strings and table cells, with their status and anti-bot checks.
  - `ScraperSerpApi` (`src/scraper_serpapi.py`): the paid API's JSON, with the key and status guards.
- **Cleaning and classification.** `ProcesarRanking` (`src/procesar_ranking.py`):
  - the column renaming of `cargar_datos`;
  - the exclusion filters of `limpiar_datos` and the h-index threshold;
  - the Scholar-id table lookup with its dash-normalising retry;
  - the first-match discipline classifier and the display helpers;
  - the final sort and numbering.
- **Scoring.** `Metrics` (`src/metrics.py`):
  - cleaning (numeric coercion, keep-first by `scholar_id`);
  - the consistency index, with its five 20-point buckets;
  - the min–max-normalised impact score, over exact reals;
  - the ranking by a chosen column and then citations;
  - the per-interest top lists.
- **Dataset maintenance.**
  - `AddResearchers` (`src/add_researchers.py`): adding researchers by id, from a file or from a search, never overwriting a known id.
  - `BuildRanking` (`src/build_ranking.py`): the id file readers, the three fetch methods (the console of the manual mode is a list of typed lines), `save_results` and `main`.
  - `RankingDesdeCsv` (`src/ranking_desde_csv.py`): ranking a hand-filled CSV.
- **Web page.** `GenerarHtml` (`src/generar_html.py`): the page's institution and discipline short names, its topic truncation, the row mapping into the embedded JavaScript array (including the JSON encoding and what the browser reads back), and the summary figures.

Supporting modules:

- `Wrappers`: `Option`.
- `Text`: the Python `str` operations used (substring, `replace`, `split`, `strip`, ASCII `lower`, `int()` and `str()`).
- `Seqs`: filter, subsequence, keep-first de-duplication, insertion sort by a two-part key, and ranks 1..n.
- `Cells`: pandas cells, columns and `to_numeric(..., errors='coerce')`.
- `Records`: the Scholar author record shared by the scrapers.
- `OpenAlexJson`: the OpenAlex author object.

Where a pandas sort is involved, the model uses an insertion sort and states only what the
source guarantees: the result is a permutation of the input, ordered by the key. The order
of ties is left unstated.

Behaviour of the code worth knowing, which the model follows:

- The topic page loop gives up on the first request error and keeps what it has; it does not retry the page (`src/openalex_scraper.py:138-140`).
- The cross-source merge replaces the whole record when the newcomer has strictly more citations. Names and topics are not combined (`src/openalex_scraper.py:493-495`).
- The ranking threshold is the constant `H_INDEX_MINIMO = 1` (`src/procesar_ranking.py:19`), not a pipeline parameter. The OpenAlex download asks for `h_index:>1` (`src/extraer_openalex.py:82`), and the two disagree exactly on h-index 1 (`ExtraerOpenAlex.ThresholdsDiffer`).
- The final processed ranking is sorted by h-index alone (`src/procesar_ranking.py:580`); only the metrics and CSV rankings break ties by citations.

Edge cases of the code that the model keeps as written:

- The institution search admits an author whose id is empty; only the topic search skips one (`src/openalex_scraper.py:125-127` against `200-204`).
- In `extraer_openalex`, an author whose first Chilean institution has an empty name is skipped, even when a later Chilean institution is named (`src/extraer_openalex.py:107-114`).
- The SerpAPI email domain removes every occurrence of `"Verified email at "`, not only a leading one (`src/scraper_serpapi.py:110`).
- The Scholar-id table is not injective: `BUc-k1MAAAAJ` and `zmkA7uwAAAAJ` each stand for two names.

## Model

| member | source | states |
|---|---|---|
| ProcesarRanking.CargarColumnas | src/procesar_ranking.py:281-290 | after loading, `cited_by_count` and `pais` are gone (renamed to `citas` and `pais_institucion`), every other column is kept, nothing else is invented, and a `citas` column always exists |
| ProcesarRanking.CargarDatos | src/procesar_ranking.py:277-293 | loading keeps every row in order and changes only two fields: a renamed `pais` column's value becomes the `pais_institucion` value, and `citas` is 0 exactly when the file had neither `citas` nor `cited_by_count` |
| ProcesarRanking.CargarConservaSobrevive | src/procesar_ranking.py:281-316 | a row passes cleaning after loading exactly when it passes with the file's own columns: the country test reads the file's `pais_institucion` column, else its `pais` column |
| ProcesarRanking.CargarLimpiarDatos | src/procesar_ranking.py:553-559 | loading then cleaning keeps a file row exactly when it is off the three deny-lists and its country column says "CL" |
| ProcesarRanking.CargarLimpiarSurvivors | src/procesar_ranking.py:553-559 | every row left after loading and cleaning is a loaded file row that passes cleaning, with country "CL" whenever the file had a country column |
| ProcesarRanking.LimpiarFilasIsOneFilter | src/procesar_ranking.py:302-318 | the four successive masks of cleaning equal one mask by the conjunction of the name, affiliation, field and country tests |
| ProcesarRanking.LimpiarDatos | src/procesar_ranking.py:296-322 | cleaning only drops rows (the result is a subsequence), every survivor passes all four tests, and every row passing them survives |
| ProcesarRanking.LimpiarDatosSurvivors | src/procesar_ranking.py:302-318 | no survivor is on the name, affiliation or field deny-list, and its country is "CL" in whichever country column the table has |
| ProcesarRanking.LimpiarDatosIdempotent | src/procesar_ranking.py:296-322 | cleaning a cleaned table changes nothing |
| ProcesarRanking.GobiernoNeverSurvives | src/procesar_ranking.py:51-52 | a row whose institution is "Gobierno de Chile" never survives cleaning |
| ProcesarRanking.FiltrarPorHindex | src/procesar_ranking.py:325-329 | the threshold keeps, in order, exactly the rows with h-index at least the minimum |
| ProcesarRanking.NormalizarGuiones | src/procesar_ranking.py:342 | dash normalisation keeps the length, turns exactly the U+2010 and U+2013 characters into '-', and leaves none of them |
| ProcesarRanking.NormalizarGuionesSinGuiones | src/procesar_ranking.py:342 | a name with neither special dash is unchanged by normalisation |
| ProcesarRanking.NormalizarGuionesIdempotent | src/procesar_ranking.py:342 | normalising twice equals normalising once |
| ProcesarRanking.BuscarScholarId | src/procesar_ranking.py:332-348 | exact table hit first, then the hit for the dash-normalised name, else ""; the affiliation is never consulted |
| ProcesarRanking.BuscarUnknownNameUsesNormalForm | src/procesar_ranking.py:338-344 | for a name not in the table, looking it up gives the same id as looking up its dash-normalised form |
| ProcesarRanking.ClasificarDisciplina | src/procesar_ranking.py:363-403 | the classifier always returns one of the nine discipline labels |
| ProcesarRanking.ClasificarIsFirstMatch | src/procesar_ranking.py:363-403 | the classifier equals first-match-wins evaluation of a table of nine rules in priority order over the lowercased topics, defaulting to "Ciencias Sociales" |
| ProcesarRanking.PsychologyWithEconomicTopic | src/procesar_ranking.py:378-385 | field "Psychology" with topic "Economic" is classified "Economía": the economics rule is tried before the psychology one |
| ProcesarRanking.NoPoliticalKeywordInEconomic | src/procesar_ranking.py:369-370 | none of the political-science keywords occurs in "economic" |
| ProcesarRanking.NoSociologyKeywordInEconomic | src/procesar_ranking.py:374-375 | none of the sociology keywords occurs in "economic" |
| ProcesarRanking.NormalizarInstitucionIdempotent | src/procesar_ranking.py:415-446 | normalising an already normalised institution changes nothing: no short name of the table is shortened again |
| ProcesarRanking.NormalizarInstitucionShortens | src/procesar_ranking.py:415-446 | normalising never lengthens a name, and a known institution with a different short name gets a strictly shorter one |
| ProcesarRanking.ShortNameLengths | src/procesar_ranking.py:417-444 | every short name in the table has at most 16 characters, and the only table name of at most 16 characters (`Inria Chile`) maps to itself |
| ProcesarRanking.AbreviarDisciplina | src/procesar_ranking.py:479-492 | a known label gets its abbreviation; any other label is cut to its first four characters (a prefix) |
| ProcesarRanking.AbreviarClasificada | src/procesar_ranking.py:479-492 | every label the classifier can produce has a table abbreviation, one of nine short codes of at most five characters |
| ProcesarRanking.TopicoCorto | src/procesar_ranking.py:504-511 | one shortened topic is at most 40 characters long |
| ProcesarRanking.SegmentosCortos | src/procesar_ranking.py:500-511 | one segment per piece of `topics_str.split(";")[:max_topics]`, the k-th being the k-th piece shortened; so at most `max_topics` segments, each of at most 40 characters |
| ProcesarRanking.TopicoCortoKeepsPlainTopic | src/procesar_ranking.py:505-511 | a stripped topic of at most 40 characters without " and " or " in " comes back unchanged |
| ProcesarRanking.ExtraerTopicosCortos | src/procesar_ranking.py:495-513 | "" for an empty string; otherwise the shortened segments joined by "; ", so the result is at most `max_topics * 42` characters |
| ProcesarRanking.ProcesarRanking | src/procesar_ranking.py:559-581 | the final ranking is a permutation of the cleaned, thresholded rows, in non-increasing h-index order, each annotated with its own discipline and id, numbered 1..n |
| ProcesarRanking.ProcesarRankingRowsQualify | src/procesar_ranking.py:559-565 | every ranked row passed every cleaning test and the h-index threshold, so none is from "Gobierno de Chile" |
| Metrics.CoerceKeepsRecordMetrics | src/metrics.py:31-36 | a scraped record's six integer metrics pass through numeric coercion unchanged |
| Metrics.CleanDataFacts | src/metrics.py:28-42 | when the table has a `scholar_id` column, after cleaning at most one row per id remains, no id is lost or invented, each kept row is the coerced first input row with its id, and a missing h-index or one `to_numeric` cannot read became 0 |
| Metrics.CleanDataWithoutIds | src/metrics.py:38-40 | without a `scholar_id` column no row is dropped: the cleaned table is the coerced input, row for row |
| Metrics.ConsistencyIndex | src/metrics.py:44-91 | the index is a multiple of 20 between 0 and 100, and a coherent h-index/citations pair or a positive 5-year h-index each guarantee at least 20 |
| Metrics.ConsistencyIndexValues | src/metrics.py:59-89 | the index takes only the values 0, 20, 40, 60, 80 and 100 |
| Metrics.CoherenceBucket | src/metrics.py:76-82 | the test `cites >= h*h*0.5` with positive h and cites is the integer test `2*cites >= h*h` |
| Metrics.ConsistencyIndexExtremes | src/metrics.py:59-89 | a profile filling all five buckets scores 100, one filling none scores 0 |
| Metrics.MinOf | src/metrics.py:108-110 | the column minimum is an element and no element is below it |
| Metrics.MaxOf | src/metrics.py:108-110 | the column maximum is an element and no element is above it |
| Metrics.Scale | src/metrics.py:110 | rescaling against a non-degenerate range lands in 0..100, hitting 0 exactly at the minimum and 100 exactly at the maximum |
| Metrics.Normalize | src/metrics.py:107-110 | a constant column becomes 50 everywhere; otherwise every value is in 0..100 with 0 exactly at the minimum and 100 exactly at the maximum |
| Metrics.ImpactScores | src/metrics.py:93-119 | one impact score per author, each within 0..100 |
| Metrics.ConstantMinMax | src/metrics.py:108-109 | a constant column has equal minimum and maximum, which is the source's 50-everywhere case |
| Metrics.ImpactConstantBatch | src/metrics.py:107-117 | when all four metrics are constant across the batch, every author's impact score is exactly 50 |
| Metrics.ImpactTopAuthor | src/metrics.py:107-117 | an author at the top of every (varying) metric has impact score 100 |
| Metrics.GenerateRanking | src/metrics.py:121-157 | none for an empty batch; otherwise a permutation of the cleaned, scored authors ordered by (sort column, citations) in the requested direction and numbered 1..n |
| Metrics.MostCommon | src/metrics.py:205-207 | `most_common(limit)`: at most `limit` distinct interests, each with its true number of occurrences, most frequent first |
| Metrics.MostCommonLeftOut | src/metrics.py:205-207 | an interest that occurs is left out of `most_common(limit)` only when the list is full, and then occurs no more often than the last one listed |
| Metrics.NLargestByH | src/metrics.py:214 | `nlargest(n, "h_index")`: exactly min(n, rows) rows when n is positive and none otherwise, all from the input, by h-index descending, and any row whose h-index beats the last one listed is listed |
| Metrics.NLargestIsSubMultiset | src/metrics.py:214 | `nlargest` lists each input row at most as often as it occurs in the input |
| Metrics.TopLists | src/metrics.py:209-216 | an interest of the most-common list gets an entry exactly when it is counted at least three times and its top list is not empty, and that entry is its top list |
| Metrics.GetTopByDiscipline | src/metrics.py:187-218 | at most 15 interests, each occurring at least three times, each mapped to a non-empty list of at most n authors of the batch who have that interest, by h-index descending; when n > 0 the interests listed are exactly those of the 15 most common that occur at least three times |
| Metrics.Matching | src/metrics.py:211-213 | the mask selects exactly the authors of the batch having an interest whose lower-cased text contains the given interest |
| Metrics.GetTopByDisciplineIsTopN | src/metrics.py:214-216 | each list is the top n of its interest: min(n, matching) authors, none listed more often than it occurs among the matching authors, and every matching author with a larger h-index than the last one listed is listed |
| Metrics.EntryIsTopFor | src/metrics.py:214-216 | the entry of an interest is `df[mask].nlargest(n, 'h_index')` for that interest's mask |
| Metrics.TopForIsTopN | src/metrics.py:214 | a non-empty top list of an interest has min(n, matching) rows drawn from the matching authors and leaves out no matching author with a larger h-index than its last row |
| OpenAlexScraper.TopicNames | src/openalex_scraper.py:253-254 | the names of the first five topics (all of them when fewer), in order, "" for a topic without a name |
| OpenAlexScraper.ParseAuthorStripsIds | src/openalex_scraper.py:224-230 | the OpenAlex URL prefix is removed from the id and the ORCID URL prefix from the ORCID |
| OpenAlexScraper.ParseAuthorOrcidCases | src/openalex_scraper.py:224-230 | an absent ORCID becomes "", a JSON-null one stays null, and an id without the URL prefix is kept as it is |
| OpenAlexScraper.ParseAuthorDefaults | src/openalex_scraper.py:235-250 | without a last-known institution the three institution columns are ""; otherwise the first institution supplies them; missing metrics default to 0 |
| OpenAlexScraper.ParseAuthorTopics | src/openalex_scraper.py:252-265 | the topics column joins at most five topic names with "; " (so its length is bounded), and field and domain come from the first topic alone, "" when there is none |
| OpenAlexScraper.FilterSocialSciences | src/openalex_scraper.py:288-354 | the filter keeps a subsequence: only Chilean authors outside the excluded fields, by domain in strict mode or by field or domain otherwise, and every author passing those tests is kept |
| OpenAlexScraper.StrictWithinLoose | src/openalex_scraper.py:345-352 | what strict mode keeps is a subsequence of what non-strict mode keeps |
| OpenAlexScraper.FilterSocialSciencesIdempotent | src/openalex_scraper.py:331-354 | filtering twice in the same mode equals filtering once |
| OpenAlexScraper.CrawlFrom | src/openalex_scraper.py:104-140 | reference definition of one crawl: it stops at the cap only after at least `max_results` authors, and on an empty page or a request error only before reaching it |
| OpenAlexScraper.CrawlUnfold | src/openalex_scraper.py:119-131 | a non-empty page contributes its authors and the crawl continues from its next cursor with the count increased |
| OpenAlexScraper.AdmitAllAppend | src/openalex_scraper.py:125-128 | running the per-author loop over two pages in turn equals running it over their concatenation |
| OpenAlexScraper.AdmitNew | src/openalex_scraper.py:127-128 | storing an admitted author with a new id appends it to the insertion-ordered dict |
| OpenAlexScraper.AdmitKnown | src/openalex_scraper.py:127 | an author whose id is already stored leaves the dict as it was |
| OpenAlexScraper.AdmitAllIsDedup | src/openalex_scraper.py:125-128 | the dict the loop builds is the keep-first de-duplication by id of the admitted authors |
| OpenAlexScraper.Paginate | src/openalex_scraper.py:104-140 | the imperative page loop fetches exactly the authors of the reference crawl and stops for the same reason |
| OpenAlexScraper.KeepFirstIsDedup | src/openalex_scraper.py:142 | the returned rows are the parses of the keep-first de-duplication of the admitted authors |
| OpenAlexScraper.KeepFirstFacts | src/openalex_scraper.py:95-142 | one row per id, as many rows as distinct admitted ids, each the parse of an admitted author |
| OpenAlexScraper.KeepFirstIsFirst | src/openalex_scraper.py:127-128 | each row is the parse of the first admitted author with its id |
| OpenAlexScraper.GetAuthorsByTopics | src/openalex_scraper.py:81-142 | the topic search returns, for the reference crawl from cursor "*", one row per non-empty id, the first author seen with it |
| OpenAlexScraper.GetAuthorsByInstitution | src/openalex_scraper.py:145-217 | one crawl per Chilean institution sharing one dict; one row per id, each the first author seen whose first last-known institution is in Chile, so every row has country "CL" |
| OpenAlexScraper.FindId | src/openalex_scraper.py:490 | the lookup returns a position holding the id, or -1 exactly when no stored row has it |
| OpenAlexScraper.FindIdKeys | src/openalex_scraper.py:490 | the lookup fails exactly for an id not among the dict's keys |
| OpenAlexScraper.MergeStepNew | src/openalex_scraper.py:490-491 | a new id is appended at the end of the dict, keeping ids unique |
| OpenAlexScraper.MergeStepKnown | src/openalex_scraper.py:492-495 | a known id keeps its position and the key set is unchanged, whichever row ends up stored |
| OpenAlexScraper.MergeShape | src/openalex_scraper.py:487-497 | the merged list has one row per id, every input id, in order of first appearance |
| OpenAlexScraper.MergeShapeStep | src/openalex_scraper.py:488-495 | one merge step preserves the shape the whole merge guarantees |
| OpenAlexScraper.BestForSnoc | src/openalex_scraper.py:494 | a stored row stays the best for its id when later rows do not have strictly more citations |
| OpenAlexScraper.BestForNewcomer | src/openalex_scraper.py:494-495 | a row with strictly more citations than every earlier row with its id becomes the best for that id |
| OpenAlexScraper.MergeWinners | src/openalex_scraper.py:487-497 | every merged row has the most citations among the rows with its id, and on a tie it is the first of them |
| OpenAlexScraper.MergeExample | src/openalex_scraper.py:493-495 | of two copies of one author the more-cited one wins in either order, and on equal citations the first one is kept |
| OpenAlexScraper.CombineSourcesFacts | src/openalex_scraper.py:479-505 | the final list holds only strict social-science authors, one per id, each the most-cited row (earliest on a tie) among the topic rows and the filtered institution rows |
| OpenAlexScraper.OpenAlexMain | src/openalex_scraper.py:441-506 | `main` runs the topic crawl capped at 2000 and the institution crawls capped at 300 each, then yields the combined list with the properties above |
| ExtraerOpenAlex.FirstTopic | src/extraer_openalex.py:49-57 | the position of the first topic whose domain or field is social science, or -1 exactly when none is |
| ExtraerOpenAlex.FirstConcept | src/extraer_openalex.py:61-65 | the position of the first concept scoring above 40 with a listed name, or -1 exactly when none does |
| ExtraerOpenAlex.EsCienciasSocialesFirstMatch | src/extraer_openalex.py:44-67 | the first of the first five topics that matches decides, with its field; only when none does are the first ten concepts consulted, the first matching one deciding with its name; a negative answer carries "" |
| ExtraerOpenAlex.FirstChilean | src/extraer_openalex.py:107-111 | the position of the first last-known institution with country "CL", or -1 exactly when there is none |
| ExtraerOpenAlex.BuildRecordFacts | src/extraer_openalex.py:97-129 | a record is emitted exactly for a social-science author whose first Chilean institution has a name; it names that institution, carries the matched field and country "CL"; an author with no Chilean institution is skipped |
| ExtraerOpenAlex.BuildRecordOrcid | src/extraer_openalex.py:119 | a missing or null ORCID becomes "", and a present one loses its URL prefix |
| ExtraerOpenAlex.RecordsFacts | src/extraer_openalex.py:97-130 | the collected records are no more than the fetched authors, all Chilean, and every author the loop admits is among them |
| ExtraerOpenAlex.ExtraerMain | src/extraer_openalex.py:159-167 | nothing for no authors; otherwise a permutation of the keep-first de-duplication by `openalex_id`, by h-index descending |
| ExtraerOpenAlex.ExtraerMainFacts | src/extraer_openalex.py:165-167 | the final table has one record per id, every collected id, and only collected records |
| ExtraerOpenAlex.ThresholdsDiffer | src/extraer_openalex.py:82 | an author with h-index 1 passes the ranking threshold but is excluded by the download filter `h_index:>1`, and 1 is the only such value |
| GenerarHtml.ShortNamesFit | src/generar_html.py:29-73 | every short name in the page's institution table has at most 20 characters |
| GenerarHtml.NormalizarInstitucion | src/generar_html.py:27-74 | a known institution gets its short name; any other is cut to its first 20 characters (a prefix); the result never exceeds 20 characters |
| GenerarHtml.InstitutionTablesDiffer | src/generar_html.py:50-74 | the page and the processing step shorten "Universidad La República" differently, and disagree on every unknown name longer than 20 characters (see src/procesar_ranking.py:415-446) |
| GenerarHtml.TopicoLimpio | src/generar_html.py:103-110 | one cleaned topic is at most 35 characters long |
| GenerarHtml.Segmentos | src/generar_html.py:99-111 | one segment per piece of `split(";")[:3]`, the k-th being the k-th piece cleaned; so one to three segments, each at most 35 characters |
| GenerarHtml.TopicoLimpioKeepsPlainTopic | src/generar_html.py:104-110 | a stripped topic of at most 35 characters without " and " or " in " comes back unchanged |
| GenerarHtml.LimpiarTopics | src/generar_html.py:93-112 | "" for a missing or empty value; otherwise at most three cleaned segments joined by "; ", never more than 109 characters |
| GenerarHtml.TopicLimitsDiffer | src/generar_html.py:108-109 | a topic of 36 to 40 characters after the word replacements is kept whole by the processing step but cut by the page (see src/procesar_ranking.py:509-510) |
| GenerarHtml.HexValue | src/generar_html.py:415 | a hexadecimal digit of a `\u` escape read by the browser has a value in 0..15 |
| GenerarHtml.HexDigitValue | src/generar_html.py:159 | the digit `json.dumps` writes for a value reads back as that value |
| GenerarHtml.Hex4 | src/generar_html.py:415 | four hexadecimal digits read as one value below 0x10000 |
| GenerarHtml.JsonChar | src/generar_html.py:159 | `json.dumps` with `ensure_ascii=False` writes a character other than the quote, the backslash and control characters as itself |
| GenerarHtml.DecodeJsonChar | src/generar_html.py:415 | reading back one encoded character followed by anything yields that character followed by the rest's value |
| GenerarHtml.JsonRoundTrip | src/generar_html.py:159 | for every string, what `json.dumps` writes into the page, the browser reads back as the same string |
| GenerarHtml.EscaparNombre | src/generar_html.py:131-132 | the hand-escaped name is never shorter than the name, and strictly longer when it holds a quote or apostrophe |
| GenerarHtml.EscapedNameShownWithBackslash | src/generar_html.py:131-159 | for a name with a quote or apostrophe the page shows the hand-escaped text itself, never the name |
| GenerarHtml.OHigginsShownWithBackslash | src/generar_html.py:131-159 | "O'Higgins" is shown as `O\'Higgins` |
| GenerarHtml.EscaparNombreSingleQuote | src/generar_html.py:131 | a name with one apostrophe, no double quote and no dash gains exactly one backslash, before the apostrophe |
| GenerarHtml.NombreJs | src/generar_html.py:132 | the corrected name mapping keeps the length and leaves neither special dash |
| GenerarHtml.NombreJsShownAsIs | src/generar_html.py:132-159 | with the corrected mapping the page shows every name exactly, with its dashes normalised |
| GenerarHtml.GenerarJsArray | src/generar_html.py:115-146 | one entry per row in order with both metrics kept, a missing id or ORCID as "", affiliation within 20 characters, discipline within 5, topics within 109; the hand-escaped name is never shorter than the row's name, longer when it holds a quote or apostrophe, and free of special dashes |
| GenerarHtml.GenerarJsArrayNames | src/generar_html.py:131-159 | the page shows each array name as its hand-escaped text, which differs from the dash-normalised name whenever the name holds a quote or apostrophe |
| GenerarHtml.GenerarJsArrayCorregido | src/generar_html.py:131-144 | the intended array: the same entries except the name, which keeps its length and loses only the special dashes |
| GenerarHtml.GenerarJsArrayCorregidoNames | src/generar_html.py:131-159 | with the intended array the page shows every name as written, dashes normalised |
| GenerarHtml.AbreviaturaCorta | src/generar_html.py:77-90 | every discipline abbreviation, from the table or cut, has at most five characters |
| GenerarHtml.Resumir | src/generar_html.py:152-156 | the count; the mean h-index (0 for an empty list) times the count is the h-index sum; the citation total; the number of distinct affiliations, between 1 and the count for a non-empty list |
| GenerarHtml.AverageBetween | src/generar_html.py:154 | the mean h-index lies between the smallest and the largest h-index |
| GenerarHtml.MeanBounds | src/generar_html.py:154 | a total between n·lo and n·hi has its mean between lo and hi |
| GenerarHtml.SumBounds | src/generar_html.py:154 | a sum of values between lo and hi lies between n·lo and n·hi |
| Scraper.ExtractProfile | src/scraper.py:210-239 | extraction inverts the profile of a record: a complete profile comes back as the record it describes, unless both name and id are empty |
| Scraper.ExtractFacts | src/scraper.py:175-243 | no profile gives nothing; a record is produced exactly when the (filled, or original when filling fails) profile has a name or an id; missing metrics read 0, a missing list is empty, a missing text is "", and the timestamp is the clock's |
| Scraper.GetAuthorByIdIsExtract | src/scraper.py:145-173 | looking up, filling (keeping the profile when filling fails) and extracting with `already_filled=True` equals extraction that fills by itself |
| Scraper.AnyKeywordInIff | src/scraper.py:263-265 | the keyword loop succeeds exactly when some keyword occurs in the affiliation or in the e-mail domain |
| Scraper.IsChileanIff | src/scraper.py:245-271 | an author is Chilean exactly when a Chilean keyword occurs in the lower-cased affiliation or e-mail domain, or ".cl" occurs in the e-mail domain |
| Scraper.MatchesSomeIff | src/scraper.py:331-333 | the inner loop succeeds exactly when the interest and some discipline are substrings one of the other |
| Scraper.AnyInterestMatchesIff | src/scraper.py:330-333 | the nested loops succeed exactly when some interest matches some discipline |
| Scraper.AnyInIff | src/scraper.py:335-337 | the second loop succeeds exactly when some discipline occurs in the affiliation |
| Scraper.IsSocialScienceIff | src/scraper.py:314-339 | an author is social science exactly when some lower-cased interest and discipline are substrings one of the other, or some lower-cased discipline occurs in the affiliation |
| Scraper.EmptyInterestAdmits | src/scraper.py:332 | an empty interest is a substring of any discipline, so it admits the author as soon as one discipline is listed |
| Scraper.ExtractAll | src/scraper.py:87-98 | the extracted records are no more than the profiles, each the extraction of one of them, each with a name or an id; every profile that extraction accepts is listed |
| Scraper.SearchByAffiliation | src/scraper.py:68-103 | no more records than `max_results` (none when it is not positive), each extracted from one of the first `max_results` profiles, and every one of those profiles that extraction accepts is listed |
| Scraper.SearchByKeywordAndLocation | src/scraper.py:105-143 | searches "keyword location" and keeps exactly the Chilean records among the bounded extraction |
| Scraper.DisciplineHitsChilean | src/scraper.py:303-308 | every record found by the discipline searches is Chilean |
| Scraper.SearchComprehensive | src/scraper.py:273-312 | the keep-first de-duplication by id of the admitted university hits followed by the discipline hits with an id: one record per id, no empty id, each either a social-science university hit or a Chilean discipline hit, and every admitted id present |
| ScraperAlt.Set | src/scraper_alt.py:143-151 | assigning one metric's two columns sets exactly those and leaves the other metrics as they were |
| ScraperAlt.ApplyRowFacts | src/scraper_alt.py:135-153 | a row with fewer than three cells or naming no metric changes nothing; a row whose first value `int()` rejects changes nothing, one whose second value it rejects sets only the first; otherwise both are set; no other metric changes |
| ScraperAlt.LastRowWins | src/scraper_alt.py:134-153 | the last row naming a metric decides it when both its values parse, whatever rows for other metrics follow |
| ScraperAlt.UntouchedStaysZero | src/scraper_alt.py:124-129 | a metric no row names stays 0 |
| ScraperAlt.EmailDomainAddress | src/scraper_alt.py:112-113 | for an address, the domain is what follows the last '@', stripped, and holds no '@' |
| ScraperAlt.EmailDomainVerified | src/scraper_alt.py:114-115 | without an '@', the "Verified email at" banner is removed and the rest stripped |
| ScraperAlt.EmailDomainBanner | src/scraper_alt.py:114-115 | without an '@', every occurrence of the banner is removed and the result stripped |
| ScraperAlt.EmailDomainEmpty | src/scraper_alt.py:108-115 | a missing e-mail line, or one with neither an '@' nor the banner, gives "" |
| ScraperAlt.ParseAuthorPage | src/scraper_alt.py:87-184 | the record carries the requested id, "" for a missing name, zero metrics without a table, and one interest per interest link |
| ScraperAlt.GetAuthorById | src/scraper_alt.py:52-85 | a record is returned only for an answered request with status 200, and carries the requested id |
| ScraperAlt.GetAuthorByIdSucceeds | src/scraper_alt.py:68-81 | conversely, an answered, unblocked 200 response always yields that page's record |
| ScraperAlt.GetAuthorsFromIds | src/scraper_alt.py:244-261 | no more records than ids, their ids a subsequence of the requested ones, and every successful lookup present |
| ScraperAlt.UntilAmp | src/scraper_alt.py:226 | the capture `[^&]+` stops at the first '&': a prefix with no '&', followed by '&' when shorter |
| ScraperAlt.UserParamFromFacts | src/scraper_alt.py:226 | scanning from a position finds a capture exactly when a match starts at or after it, and then at the leftmost such match |
| ScraperAlt.UserParamFacts | src/scraper_alt.py:224-228 | an id is captured exactly when the link holds "user=" followed by something other than '&'; it is then non-empty, free of '&', and follows "user=" in the link |
| ScraperAlt.CapturedId | src/scraper_alt.py:226-228 | what a match captures is a non-empty id free of '&', right after "user=" |
| ScraperAlt.UserParamSkip | src/scraper_alt.py:226 | positions without a 'u' cannot start a match and are skipped |
| ScraperAlt.UserParamNone | src/scraper_alt.py:226 | too close to the end of the link no match can start |
| ScraperAlt.UserParamOfProfileLink | src/scraper_alt.py:224-228 | a profile link `…user=<id>&…` yields exactly `<id>` |
| ScraperAlt.UntilAmpOf | src/scraper_alt.py:226 | an id free of '&' followed by nothing or by '&…' is captured whole |
| ScraperAlt.SearchAuthors | src/scraper_alt.py:190-242 | nothing when the search raises or answers other than 200; otherwise the lookups of the first `max_results` hits that carry an id, each id non-empty and free of '&' |
| ScraperSerpApi.ResolveKey | src/scraper_serpapi.py:42 | a non-empty given key wins; otherwise the environment's key is used |
| ScraperSerpApi.MakeRequest | src/scraper_serpapi.py:49-69 | nothing without a key; a result only from a 200 answer with a JSON body to the request carrying the key |
| ScraperSerpApi.NoKeyNoRequest | src/scraper_serpapi.py:51-53 | without a key the endpoint is never consulted: any two endpoints give the same empty answer |
| ScraperSerpApi.GetAuthorById | src/scraper_serpapi.py:71-129 | nothing without a key; a record only for a request that produced a non-empty result, always under the requested id |
| ScraperSerpApi.MetricFromLastRow | src/scraper_serpapi.py:97-117 | a metric takes the counts of the last table row with its id, missing counts read as 0 |
| ScraperSerpApi.MetricWithoutRow | src/scraper_serpapi.py:112-117 | a metric no table row names reads 0 in both columns |
| ScraperSerpApi.ToRecordText | src/scraper_serpapi.py:110-111 | the "Verified email at " banner is removed from the e-mail, and the interests are the titles in order |
| ScraperSerpApi.GetAuthorsFromIds | src/scraper_serpapi.py:166-173 | no more records than ids, their ids a subsequence of the requested ones, and every successful lookup present |
| ScraperSerpApi.SearchAuthors | src/scraper_serpapi.py:131-164 | nothing without a key, a failed request or an empty answer; otherwise exactly the id lookups of the hits in `profiles[:max_results]` with a non-empty `author_id`, in order, so at most one record per hit, each with a non-empty id |
| ScraperSerpApi.SearchAuthorsFindsHits | src/scraper_serpapi.py:154-160 | every hit among the first `max_results` whose id lookup succeeds has its record in the result |
| AddResearchers.LoadExistingAuthorsFacts | src/add_researchers.py:30-37 | no file gives no authors; otherwise the keys are exactly the ids of the newest file, each mapped to the last author with that id |
| AddResearchers.AddById | src/add_researchers.py:52-65 | it reports success exactly when the id was unknown and the fetch returned an author, which is then added under the requested id; otherwise the dict is unchanged; no existing entry is ever replaced |
| AddResearchers.AddByIdKnownNoFetch | src/add_researchers.py:54-56 | a known id is refused without consulting the scraper: the answer is the same whatever the fetch does |
| AddResearchers.AddIds | src/add_researchers.py:98-104 | trying a list of ids counts exactly the growth of the dict, at most one per id; known entries are untouched, every new entry is a fetched id of the list, and every id of the list that can be fetched is in the dict afterwards |
| AddResearchers.AddFoldFacts | src/add_researchers.py:98-102 | after trying ids in turn, the count is the growth, earlier entries are kept, the new entries are fetched ids of the list, and every fetchable id of the list is present |
| AddResearchers.AddByIdStep | src/add_researchers.py:101-102 | one more addition keeps the earlier entries and adds only a fetched, requested id |
| AddResearchers.PlainTextIds | src/add_researchers.py:82-101 | for a plain-text file the ids tried are exactly its non-blank lines, stripped, in order |
| AddResearchers.CellIdsOfStripped | src/add_researchers.py:98-101 | reading stripped ids back from a column of text cells gives the same ids |
| AddResearchers.AddFromFile | src/add_researchers.py:68-104 | nothing is added when no id column exists; otherwise the count returned is the dict's growth, known entries are untouched, every new entry is a fetched id read from the first id column, and every id of that column that can be fetched is in the dict afterwards |
| AddResearchers.ReadSelection | src/add_researchers.py:131-139 | "cancelar" and "todos" are recognised in any case, exactly; otherwise one 0-based index per comma-separated piece, and an unreadable answer has a piece `int()` rejects |
| AddResearchers.SelectedIds | src/add_researchers.py:141-144 | every id comes from an in-range chosen index, and every in-range chosen hit with an id contributes it |
| AddResearchers.SearchAndAdd | src/add_researchers.py:107-150 | only the first ten hits are offered; no hits, "cancelar" or an unreadable answer add nothing; otherwise the count is the dict's growth, every new entry is a fetched id of an offered hit, and every chosen offered hit (all ten with "todos") whose non-empty id can be fetched is in the dict afterwards |
| AddResearchers.ChosenOutcome | src/add_researchers.py:141-144 | adding the chosen ids leaves every chosen, in-range, fetchable hit in the dict and nothing new that was not chosen |
| AddResearchers.EverythingChosen | src/add_researchers.py:134-135 | "todos" chooses every offered hit, so every fetchable one is added |
| AddResearchers.OfferedHit | src/add_researchers.py:118-143 | a chosen id is the id of one of the first ten hits |
| BuildRanking.LoadIdsFromFile | src/build_ranking.py:36-60 | a plain-text file gives every non-blank line, stripped, and nothing blank; a spreadsheet with none of the five id columns gives nothing; otherwise exactly the present cells of the first id column found, as text |
| BuildRanking.ScholarIdColumnOnlyHere | src/build_ranking.py:55 | a spreadsheet whose only id column is `ScholarID` yields ids when building the ranking, while adding researchers from it finds no id column (its candidate list lacks that name) |
| BuildRanking.OnlyColumn | src/build_ranking.py:55-57 | among a single column, the id column found is that column whenever it is one of the candidates |
| BuildRanking.FetchWithSerpapi | src/build_ranking.py:63-76 | without a key nothing is fetched; the authors returned follow the ids in order, and every id the service resolves is represented |
| BuildRanking.FetchWithScholarlyFacts | src/build_ranking.py:79-92 | the scholarly fetch returns no more authors than ids, each the author some id resolved to, every resolved id represented, and fetching two lists one after the other is fetching their concatenation |
| BuildRanking.ReadCounts | src/build_ranking.py:131-136 | the three counts are all zero unless all three answers were read and accepted by `int()`, in which case they are those answers; between one and three lines are consumed, and a rejected answer stops the asking |
| BuildRanking.InterestList | src/build_ranking.py:138-139 | no interests exactly when the answer is blank; no interest contains a comma |
| BuildRanking.ManualTurn | src/build_ranking.py:121-160 | `skip` consumes one line; an entered author consumes four to six lines, carries the id of the turn, a name other than `quit`/`skip`, and blank email domain and zero five-year counts |
| BuildRanking.ManualEntry | src/build_ranking.py:95-162 | the hand-entered authors follow the ids in order, at most one per id, and none carries data only a scraper fills in |
| BuildRanking.ManualQuit | src/build_ranking.py:123-125 | `quit`, in any case, as the first name ends the session with nobody entered, whatever follows |
| BuildRanking.ManualUnreadableHIndex | src/build_ranking.py:131-138 | an h-index answer `int()` rejects zeroes all three counts and the next line is taken as the interests |
| BuildRanking.SaveResults | src/build_ranking.py:165-203 | a ranking is produced exactly when it is asked for and there are authors; it has one row per cleaned author, ranks 1..n, ordered by h-index and then citations, both descending |
| BuildRanking.SaveResultsOnePerId | src/build_ranking.py:178-181 | the ranking has exactly as many rows as the authors have distinct Scholar ids |
| BuildRanking.Main | src/build_ranking.py:206-262 | the run stops early exactly when no ids load or no method is chosen and no key is set; a closed console only happens in manual mode; a save holds at least one author and a ranking exactly when `--no-ranking` is off; with `--serpapi` a save needs a key and follows the ids in order |
| BuildRanking.SerpapiWithoutKey | src/build_ranking.py:232-234 | `--serpapi` without `SERPAPI_KEY` fetches nobody, so nothing is saved |
| RankingDesdeCsv.GenerarRanking | src/ranking_desde_csv.py:13-41 | nothing exactly when no row has an h-index; otherwise a permutation of the coerced rows that have one, ordered by (h-index, citations) descending and ranked 1..n |
| RankingDesdeCsv.GenerarRankingKeepsRows | src/ranking_desde_csv.py:20 | any row with an h-index makes the ranking exist and appears in it, coerced |
| RankingDesdeCsv.RankedItems | src/ranking_desde_csv.py:35-41 | when every row has an h-index the ranking lists all of them, coerced, in non-increasing order |
| RankingDesdeCsv.ThreeRowsRanked | src/ranking_desde_csv.py:35-41 | three rows of strictly decreasing (h-index, citations) come out in that order even when read in the reverse one |
| RankingDesdeCsv.RankingOrderExample | src/ranking_desde_csv.py:35-38 | of (10, 500), (10, 300) and (8, 900), the tie on h-index is broken by citations and the higher h-index wins over more citations |
| Cells.ToIntKeepsIntegers | src/ranking_desde_csv.py:21 | coercion keeps every integer, stored as a number or written out as text |
| Cells.ToIntCoercesToZero | src/ranking_desde_csv.py:21 | a gap and text that `to_numeric` cannot read both coerce to 0 |
| Cells.TruncToInt | src/ranking_desde_csv.py:21 | `astype(int)` cuts toward zero: the result lies within one of the value, on the side of zero |
| Cells.ToNumericOfIntToString | src/ranking_desde_csv.py:21 | the text `str(n)` of an integer reads back as that integer |
| Cells.ParseOfDecimal | src/ranking_desde_csv.py:21 | a decimal numeral, after a minus sign or not, reads as its sign, whole digits and fraction digits |
| Cells.ParseOfExponent | src/ranking_desde_csv.py:21 | a whole numeral with an exponent, after a minus sign or not, reads as its sign, digits and exponent |
| Cells.ToIntOfDecimal | src/ranking_desde_csv.py:21 | a decimal numeral coerces to its whole part with its sign: `12.5` to 12 and `-2.7` to -2 |
| Cells.ToIntOfExponent | src/ranking_desde_csv.py:21 | a whole numeral with a non-negative exponent coerces to the number followed by that many zeros: `1e3` to 1000 |
| Cells.FirstColumn | src/build_ranking.py:55-56 | the column found is a candidate present in the table with no earlier candidate present; none is found exactly when no candidate is present |
| Cells.PresentTexts | src/build_ranking.py:57 | every text listed is that of a present cell, and every present cell's text is listed |
| Cells.LineIds | src/build_ranking.py:51 | every non-blank line, stripped, is listed; nothing listed is blank or unstripped, and each comes from a line |

## Left out

- File input and output: `read_csv`, `read_excel`, `to_csv`, `to_excel` and `json.dump` are not modelled, nor are output paths and timestamps. Readers become parameters holding what was read, and writers end at the value they would write.
- The `main` of `src/procesar_ranking.py` choosing the newest OpenAlex file by modification time: the table read from it is a parameter. `load_existing_authors` receives the saved files in name order and reads the last one.
- The network: `requests`, `scholarly.search_author`/`fill`, SerpAPI and the OpenAlex server are abstract functions returning `Option` (`None` for a failed or non-200 request).
- Proxies (`ProxyGenerator`), sleeps and random delays: they have no effect on the results.
- `enrich_with_first_publication_year` and `save_results` in `src/openalex_scraper.py`: the first is network-bound and hard-codes the year 2025, and the second is a file write.
- The `get_authors_chile` page loop (`src/extraer_openalex.py:79-145`): on an error it retries the same cursor with no cap, so nothing bounds it. Its per-author logic is modelled (`ExtraerOpenAlex.BuildRecord`), and so are the de-duplication and sort of `main`.
- The page loop of `get_authors_by_institution_search` is modelled over a finite list of pages. Its outer loop over search terms is the concatenation of those runs.
- `generar_json_web` and `guardar_csv_final` in `src/procesar_ranking.py`: file output. The per-row fields they compute are the modelled `NormalizarInstitucion`, `AbreviarDisciplina` and `ExtraerTopicosCortos`.
- `get_statistics` in `src/metrics.py` (means, medians and standard deviations over floats).
- Floating point: the impact score is computed over exact reals, and `2yr_mean_citedness` is not modelled.
- Metrics.ImpactScores: does not model `round(2)`; it states bounds over exact reals.
- The HTML template, its CSS and the JavaScript that renders the table (`src/generar_html.py:161-507`). Only the reading back of the embedded JSON array is modelled. The page writes names through `innerHTML`, which the model does not follow.
- Command-line parsing and printing in every `main`: `argparse` flags become a `Flags` value, and the printed reports are omitted.
- `src/main.py`, `src/actualizar_ranking.py` and `src/test_scraper.py` are not part of this model: they only orchestrate the other scripts or call live services.
- `str.lower()` is modelled for ASCII letters only; accented capitals are left as they are.
- `int()` is modelled for an optional sign followed by decimal digits, after stripping. Underscores between digits and non-ASCII digits are not accepted.
- Cells.ToIntCoercesToZero: a cell that pandas already read as a float is represented by the text it was read from, which coerces to the same integer; the precision float64 loses on numerals longer than about fifteen digits is not modelled, the model reads them exactly.
- RankingDesdeCsv.GenerarRanking: the same holds for its three coerced columns. Text that pandas reads as infinity (`inf`) or as `nan` is treated as unreadable and becomes 0; in pandas `astype(int)` raises an error on infinity instead.
- Cells.ToNumeric: reads what `to_numeric` reads for ASCII decimal numerals (sign, digits, point, exponent); hexadecimal, underscores and non-ASCII digits are not accepted. Surrounding whitespace is what `str.strip` removes.
- Metrics.CleanData: a `scholar_id` column whose every cell is missing is treated as no column, so no row is dropped; pandas would keep the first of those rows only.
- The JSON reader of `GenerarHtml` understands the escapes that `json.dumps(..., ensure_ascii=False)` writes (`\"`, `\\`, `\n`, `\r`, `\t`, `\b`, `\f` and `\u00XX`), not every JSON escape.
- ProcesarRanking.CargarDatos: a file holding both `pais` and `pais_institucion` (or both `citas` and `cited_by_count`) would get two columns of one name from pandas' rename; the model keeps the existing `pais_institucion` (or `citas`) values and ignores the other column.
- ProcesarRanking.ProcesarRanking: ties in h-index may come out in any order, because pandas' default sort is not stable; the contract states the order by h-index only.
- Metrics.GenerateRanking: likewise for ties on both the sort column and citations.
- ExtraerOpenAlex.ExtraerMain: likewise for ties on h-index.
- Metrics.NLargestByH: which of several authors tied on h-index at the cut is listed, and their order, is left open; pandas' `keep='first'` takes them in input order.
- Metrics.MostCommon: does not state the order among interests with equal counts, which `Counter` takes from first appearance.
- Python dicts keep insertion order. The dicts of `add_researchers` and of the Scholar-id table are modelled as `map`s, so the order of their values when saved is not modelled.
- In `search_and_add` (`src/add_researchers.py`), the console prompt is a parameter holding the typed line.

## Findings

| source | as written | input that shows it | evidently intended | confidence | as-written member | corrected member |
|---|---|---|---|---|---|---|
| src/generar_html.py:131-159 | the name is escaped by hand (`"` becomes `\"` and `'` becomes `\'`) before `json.dumps` escapes it again | the name `O'Higgins` reaches the browser as `O\'Higgins` | the page shows the name as written, with `json.dumps` the only escaping | not executed | GenerarHtml.GenerarJsArray, GenerarHtml.GenerarJsArrayNames, GenerarHtml.OHigginsShownWithBackslash | GenerarHtml.GenerarJsArrayCorregido, GenerarHtml.GenerarJsArrayCorregidoNames |
