/**
 * The ranking built from a list of Scholar ids (`build_ranking.py`): the id file is read,
 * each id fetched through SerpAPI, through the `scholarly` scraper, or typed in by hand, and
 * the authors obtained go to the metrics module's ranking. The environment variable, the two
 * fetchers and the console are parameters; writing files is left out.
 */
module BuildRanking {
  import opened Wrappers
  import opened Text
  import opened Seqs
  import opened Cells
  import opened Records
  import Scraper
  import ScraperSerpApi
  import Metrics
  import AddResearchers

  // ---------------------------------------------------------------- load_ids_from_file

  /** The id columns looked for, in order; one more than `add_researchers` accepts. */
  const ID_COLUMNS: seq<string> := ["scholar_id", "id", "google_scholar_id", "ID", "ScholarID"]

  /**
   * `load_ids_from_file`: the non-blank lines of a text file, stripped; for a spreadsheet
   * the present cells of the first id column as text, or nothing when it has none.
   */
  function LoadIdsFromFile(file: IdFile): (r: seq<string>)
    ensures file.PlainText? ==>
              (forall i :: 0 <= i < |r| ==> r[i] != "" && Strip(r[i]) == r[i])
              && forall j :: 0 <= j < |file.lines| && Strip(file.lines[j]) != "" ==> Strip(file.lines[j]) in r
    ensures file.Sheet? && (forall i :: 0 <= i < |ID_COLUMNS| ==> ID_COLUMNS[i] !in file.table.columns) ==> r == []
    ensures file.Sheet? && FirstColumn(file.table.columns, ID_COLUMNS).Some? ==>
              var cells := Column(file.table, FirstColumn(file.table.columns, ID_COLUMNS).value);
              (forall i :: 0 <= i < |r| ==> TextOfSome(cells, r[i]))
              && forall j :: 0 <= j < |cells| && !cells[j].Missing? ==> CellText(cells[j]) in r
  {
    match file
    case PlainText(lines) => LineIds(lines)
    case Sheet(t) =>
      match FirstColumn(t.columns, ID_COLUMNS)
      case None => []
      case Some(col) =>
        var cells := Column(t, col);
        var r := PresentTexts(cells);
        r
  }

  /**
   * A spreadsheet whose only id column is `ScholarID` yields its ids here, while adding
   * researchers from the same file finds no id column at all.
   */
  lemma ScholarIdColumnOnlyHere(cells: seq<Cell>, j: nat)
    requires j < |cells| && !cells[j].Missing?
    ensures var file := Sheet(Table(["ScholarID"], map["ScholarID" := cells]));
            |LoadIdsFromFile(file)| > 0 && AddResearchers.IdsToAdd(file).None?
  {
    var t := Table(["ScholarID"], map["ScholarID" := cells]);
    OnlyColumn(t, ID_COLUMNS, 4);
    assert Column(t, "ScholarID") == cells;
    assert CellText(cells[j]) in LoadIdsFromFile(Sheet(t));
    assert FirstColumn(t.columns, AddResearchers.ID_COLUMNS).None? by {
      assert forall i :: 0 <= i < |AddResearchers.ID_COLUMNS| ==> AddResearchers.ID_COLUMNS[i] != "ScholarID";
    }
  }

  /** The first candidate found among a single column is that column. */
  lemma OnlyColumn(t: Table, candidates: seq<string>, k: nat)
    requires |t.columns| == 1 && k < |candidates| && candidates[k] == t.columns[0]
    ensures FirstColumn(t.columns, candidates) == Some(t.columns[0])
  {
    assert candidates[k] in t.columns;
  }

  // ---------------------------------------------------------------- fetchers

  /**
   * `fetch_with_serpapi`: nothing without `SERPAPI_KEY`; otherwise the client built on that
   * key looks every id up in order, failed lookups omitted.
   */
  function FetchWithSerpapi(env: Option<string>, api: ScraperSerpApi.AuthorApi, ids: seq<string>, now: string): (r: seq<ScholarAuthor>)
    ensures !ScraperSerpApi.HasKey(env) ==> r == []
    ensures IsSubseq(ScholarIds(r), ids)
    ensures ScraperSerpApi.HasKey(env) ==>
              forall i :: 0 <= i < |ids| && ScraperSerpApi.GetAuthorById(env, api, ids[i], now).Some?
                ==> ScraperSerpApi.GetAuthorById(env, api, ids[i], now).value in r
  {
    if !ScraperSerpApi.HasKey(env) then []
    else
      var key := ScraperSerpApi.ResolveKey(env, env);
      assert key == env;
      ScraperSerpApi.GetAuthorsFromIds(key, api, ids, now)
  }

  /** The scholarly lookup of one id, as `fetch_with_scholarly` calls it. */
  function ScholarlyLookup(lookup: string -> Option<Scraper.RawProfile>, fill: Scraper.Filler, now: string): string -> Option<ScholarAuthor>
  {
    id => Scraper.GetAuthorById(lookup, fill, now, id)
  }

  /** `fetch_with_scholarly`: one lookup per id, in order, the authors not found omitted. */
  function FetchWithScholarly(lookup: string -> Option<Scraper.RawProfile>, fill: Scraper.Filler, now: string, ids: seq<string>): seq<ScholarAuthor>
  {
    Successes(ids, ScholarlyLookup(lookup, fill, now))
  }

  /**
   * What the scholarly fetch returns: no more authors than ids, each the author some id
   * resolved to, every resolved id represented, and a list of ids split in two fetches
   * the same authors as the two halves fetched one after the other.
   */
  lemma FetchWithScholarlyFacts(lookup: string -> Option<Scraper.RawProfile>, fill: Scraper.Filler, now: string,
                                ids: seq<string>, more: seq<string>)
    ensures var r := FetchWithScholarly(lookup, fill, now, ids);
            |r| <= |ids|
            && (forall i :: 0 <= i < |r| ==> exists j :: 0 <= j < |ids| && Scraper.GetAuthorById(lookup, fill, now, ids[j]) == Some(r[i]))
            && (forall j :: 0 <= j < |ids| && Scraper.GetAuthorById(lookup, fill, now, ids[j]).Some?
                  ==> Scraper.GetAuthorById(lookup, fill, now, ids[j]).value in r)
    ensures FetchWithScholarly(lookup, fill, now, ids + more)
            == FetchWithScholarly(lookup, fill, now, ids) + FetchWithScholarly(lookup, fill, now, more)
  {
    var f := ScholarlyLookup(lookup, fill, now);
    assert forall id :: f(id) == Scraper.GetAuthorById(lookup, fill, now, id);
    SuccessesAppend(ids, more, f);
  }

  // ---------------------------------------------------------------- manual_entry_mode

  /**
   * The console as a list of typed lines. `input()` past the last line raises, which ends
   * the program: every reader below answers `None` then.
   */
  function Line(input: seq<string>, pos: nat): Option<string>
  {
    if pos < |input| then Some(Strip(input[pos])) else None
  }

  /** `int(answer or 0)` of a stripped answer: blank is 0, and `None` where `int()` raises. */
  function ReadCount(answer: string): Option<int>
  {
    if answer == "" then Some(0) else ParseInt(answer)
  }

  /**
   * The three counts (h-index, citations, i10-index), asked one after another: the first
   * answer `int()` rejects ends the asking, and all three become 0. Gives the counts and the
   * position of the next unread line.
   */
  function ReadCounts(input: seq<string>, pos: nat): (r: Option<((int, int, int), nat)>)
    ensures r.Some? ==> pos + 1 <= r.value.1 <= pos + 3
    ensures r.Some? ==> r.value.0 == (0, 0, 0)
                        || (r.value.1 == pos + 3
                            && Line(input, pos).Some? && ReadCount(Line(input, pos).value) == Some(r.value.0.0)
                            && Line(input, pos + 1).Some? && ReadCount(Line(input, pos + 1).value) == Some(r.value.0.1)
                            && Line(input, pos + 2).Some? && ReadCount(Line(input, pos + 2).value) == Some(r.value.0.2))
    ensures r.Some? && r.value.1 < pos + 3 ==> r.value.0 == (0, 0, 0)
    ensures r.None? ==> pos + 2 >= |input|
  {
    var h := Line(input, pos);
    if h.None? then None
    else if ReadCount(h.value).None? then Some(((0, 0, 0), pos + 1))
    else
      var c := Line(input, pos + 1);
      if c.None? then None
      else if ReadCount(c.value).None? then Some(((0, 0, 0), pos + 2))
      else
        var i := Line(input, pos + 2);
        if i.None? then None
        else if ReadCount(i.value).None? then Some(((0, 0, 0), pos + 3))
        else Some(((ReadCount(h.value).value, ReadCount(c.value).value, ReadCount(i.value).value), pos + 3))
  }

  /** `[i.strip() for i in interests.split(',')] if interests else []`. */
  function InterestList(answer: string): (r: seq<string>)
    ensures answer == "" <==> r == []
    ensures forall i :: 0 <= i < |r| ==> ',' !in r[i]
  {
    if answer == "" then []
    else
      var parts := Split(answer, ',');
      var r := StripAll(parts);
      forall i | 0 <= i < |r| ensures ',' !in r[i] {
        var a, b :| 0 <= a <= b <= |parts[i]| && r[i] == parts[i][a..b];
        assert forall k :: 0 <= k < |r[i]| ==> r[i][k] == parts[i][a + k];
      }
      r
  }

  /** The record of a hand-entered author: what was typed, and 0 or "" for everything not asked. */
  function ManualAuthor(scholarId: string, name: string, affiliation: string, counts: (int, int, int),
                        interests: seq<string>, now: string): ScholarAuthor
  {
    ScholarAuthor(scholarId, name, affiliation, "", interests,
                  counts.0, 0, counts.2, 0, counts.1, 0, "", "", now)
  }

  /** What one id's turn at the console comes to. */
  datatype Turn = Quit | Skip(next: nat) | Entered(author: ScholarAuthor, next: nat)

  /**
   * One id: the name is read first, `quit` (any case) ends the session and `skip` passes to
   * the next id; otherwise affiliation, the counts and the interests follow.
   */
  function ManualTurn(scholarId: string, input: seq<string>, pos: nat, now: string): (r: Option<Turn>)
    ensures r.Some? && r.value.Skip? ==> r.value.next == pos + 1
    ensures r.Some? && r.value.Entered? ==> pos + 4 <= r.value.next <= pos + 6
    ensures r.Some? && r.value.Entered? ==>
              var a := r.value.author;
              a.scholarId == scholarId && a.emailDomain == "" && a.hIndex5y == 0 && a.i10Index5y == 0
              && a.citations5y == 0 && Lower(a.name) != "quit" && Lower(a.name) != "skip"
  {
    var name := Line(input, pos);
    if name.None? then None
    else if Lower(name.value) == "quit" then Some(Quit)
    else if Lower(name.value) == "skip" then Some(Skip(pos + 1))
    else
      var affiliation := Line(input, pos + 1);
      if affiliation.None? then None
      else
        match ReadCounts(input, pos + 2)
        case None => None
        case Some(cs) =>
          var interests := Line(input, cs.1);
          if interests.None? then None
          else
            Some(Entered(ManualAuthor(scholarId, name.value, affiliation.value, cs.0, InterestList(interests.value), now), cs.1 + 1))
  }

  /**
   * `manual_entry_mode`: the ids in order, each given its turn at the console; `None` when
   * the console runs out of lines before the session ends.
   */
  function ManualEntry(ids: seq<string>, input: seq<string>, pos: nat, now: string): (r: Option<seq<ScholarAuthor>>)
    ensures r.Some? ==> IsSubseq(ScholarIds(r.value), ids)
    ensures r.Some? ==> forall i :: 0 <= i < |r.value| ==> NotScraped(r.value[i])
    decreases |ids|
  {
    if |ids| == 0 then Some([])
    else
      var turn := ManualTurn(ids[0], input, pos, now);
      if turn.None? then None
      else if turn.value.Quit? then Some([])
      else
        var rest := ManualEntry(ids[1..], input, turn.value.next, now);
        if rest.None? then None
        else if turn.value.Skip? then
          SubseqSkip(ScholarIds(rest.value), ids);
          rest
        else
          EnteredKept(turn.value.author, rest.value, ids);
          Some([turn.value.author] + rest.value)
  }

  /** A hand-entered record carries nothing only a scraper fills in. */
  predicate NotScraped(a: ScholarAuthor)
  {
    a.emailDomain == "" && a.hIndex5y == 0 && a.citations5y == 0
  }

  lemma SubseqSkip(xs: seq<string>, ids: seq<string>)
    requires |ids| > 0 && IsSubseq(xs, ids[1..])
    ensures IsSubseq(xs, ids)
  {
  }

  lemma EnteredKept(a: ScholarAuthor, rest: seq<ScholarAuthor>, ids: seq<string>)
    requires |ids| > 0 && a.scholarId == ids[0] && IsSubseq(ScholarIds(rest), ids[1..])
    requires NotScraped(a) && forall i :: 0 <= i < |rest| ==> NotScraped(rest[i])
    ensures IsSubseq(ScholarIds([a] + rest), ids)
    ensures forall i :: 0 <= i < |[a] + rest| ==> NotScraped(([a] + rest)[i])
  {
    assert ScholarIds([a] + rest)[1..] == ScholarIds(rest);
  }

  /** `quit` as the first name ends the session with nobody entered, whatever follows. */
  lemma ManualQuit(ids: seq<string>, input: seq<string>, pos: nat, now: string)
    requires |ids| > 0 && pos < |input| && Lower(Strip(input[pos])) == "quit"
    ensures ManualEntry(ids, input, pos, now) == Some([])
  {
  }

  /**
   * An h-index answer `int()` rejects zeroes all three counts, and the citations and
   * i10-index questions are never asked: the line after it is read as the interests.
   */
  lemma ManualUnreadableHIndex(scholarId: string, input: seq<string>, pos: nat, now: string)
    requires pos + 3 < |input|
    requires Lower(Strip(input[pos])) != "quit" && Lower(Strip(input[pos])) != "skip"
    requires Strip(input[pos + 2]) != "" && ParseInt(Strip(input[pos + 2])).None?
    ensures var t := ManualTurn(scholarId, input, pos, now);
            t.Some? && t.value.Entered? && t.value.next == pos + 4
            && t.value.author.hIndex == 0 && t.value.author.citations == 0 && t.value.author.i10Index == 0
            && t.value.author.interests == InterestList(Strip(input[pos + 3]))
  {
  }

  // ---------------------------------------------------------------- save_results and main

  function FromRecords(authors: seq<ScholarAuthor>): (r: seq<Metrics.RawAuthor>)
    ensures |r| == |authors| && forall i :: 0 <= i < |authors| ==> r[i] == Metrics.FromRecord(authors[i])
  {
    seq(|authors|, i requires 0 <= i < |authors| => Metrics.FromRecord(authors[i]))
  }

  /**
   * `save_results`: the ranking of the metrics module, by h-index descending, is built only
   * when asked for and when there is someone to rank; one row per distinct Scholar id.
   */
  function SaveResults(authors: seq<ScholarAuthor>, generateRanking: bool): (r: Option<seq<Ranked<Metrics.Scored>>>)
    ensures r.Some? <==> generateRanking && |authors| > 0
    ensures r.Some? ==> |r.value| == |Metrics.CleanData(FromRecords(authors))|
    ensures r.Some? ==> forall i :: 0 <= i < |r.value| ==> r.value[i].rank == i + 1
    ensures r.Some? ==> forall i, j :: 0 <= i < j < |r.value| ==>
              r.value[i].item.author.hIndex > r.value[j].item.author.hIndex
              || (r.value[i].item.author.hIndex == r.value[j].item.author.hIndex
                  && r.value[i].item.author.citations >= r.value[j].item.author.citations)
  {
    if generateRanking && |authors| > 0 then Metrics.GenerateRanking(FromRecords(authors), Metrics.ByHIndex, false)
    else None
  }

  /** The ranking has exactly as many rows as the authors have distinct Scholar ids. */
  lemma SaveResultsOnePerId(authors: seq<ScholarAuthor>)
    requires |authors| > 0
    ensures |SaveResults(authors, true).value| == |KeysOf(authors, ScholarId)|
  {
    var raws := FromRecords(authors);
    var clean := Metrics.CleanData(raws);
    assert |clean| == |KeysOf(raws, Metrics.RawIdOf)| by {
      assert raws[0].scholarId.Some?;
      Metrics.CleanDataFacts(raws, 0);
      UniqueKeysCard(clean, Metrics.ScholarIdOf);
    }
    RecordIds(authors);
    WrappedCard(KeysOf(authors, ScholarId));
  }

  /** Every id as an optional value. */
  function Wrapped(ids: set<string>): set<Option<string>>
  {
    set id | id in ids :: Some(id)
  }

  /** The ids of the converted records are the authors' ids, wrapped. */
  lemma RecordIds(authors: seq<ScholarAuthor>)
    ensures KeysOf(FromRecords(authors), Metrics.RawIdOf) == Wrapped(KeysOf(authors, ScholarId))
  {
    var raws := FromRecords(authors);
    var ids := KeysOf(authors, ScholarId);
    forall o | o in KeysOf(raws, Metrics.RawIdOf) ensures o in Wrapped(ids) {
      var r :| r in raws && r.scholarId == o;
      var i :| 0 <= i < |raws| && raws[i] == r;
      assert authors[i] in authors;
    }
    forall id | id in ids ensures Some(id) in KeysOf(raws, Metrics.RawIdOf) {
      var a :| a in authors && a.scholarId == id;
      var i :| 0 <= i < |authors| && authors[i] == a;
      assert raws[i] in raws;
    }
  }

  lemma UniqueKeysCard<T, K>(xs: seq<T>, key: T -> K)
    requires UniqueKeys(xs, key)
    ensures |KeysOf(xs, key)| == |xs|
  {
    if |xs| > 0 {
      var tail := xs[1..];
      assert UniqueKeys(tail, key) by {
        forall i, j | 0 <= i < j < |tail| ensures key(tail[i]) != key(tail[j]) {
          assert tail[i] == xs[i + 1] && tail[j] == xs[j + 1];
        }
      }
      UniqueKeysCard(tail, key);
      assert KeysOf(xs, key) == {key(xs[0])} + KeysOf(tail, key) by {
        assert forall y :: y in xs <==> y == xs[0] || y in tail;
      }
      assert key(xs[0]) !in KeysOf(tail, key) by {
        assert forall j :: 0 <= j < |tail| ==> key(tail[j]) == key(xs[j + 1]) != key(xs[0]);
      }
    }
  }

  lemma WrappedCard(ids: set<string>)
    ensures |Wrapped(ids)| == |ids|
  {
    if ids != {} {
      var x :| x in ids;
      var rest := ids - {x};
      WrappedCard(rest);
      assert Wrapped(ids) == Wrapped(rest) + {Some(x)};
    }
  }

  /** Where the ids are looked up; a later flag is only considered when the earlier ones are off. */
  datatype Flags = Flags(serpapi: bool, scholarly: bool, manual: bool, noRanking: bool)

  /** The outside world: `SERPAPI_KEY`, the two services, the console, and the clock. */
  datatype World = World(
    env: Option<string>,
    serpApi: ScraperSerpApi.AuthorApi,
    lookup: string -> Option<Scraper.RawProfile>,
    fill: Scraper.Filler,
    console: seq<string>,
    now: string)

  datatype Outcome =
    | NoIds                // the file gave no id
    | NoKey                // no method chosen and no SERPAPI_KEY
    | ConsoleClosed        // the console ran out of lines during manual entry
    | NoAuthors            // every fetch failed
    | Saved(authors: seq<ScholarAuthor>, ranking: Option<seq<Ranked<Metrics.Scored>>>)

  /** The authors the chosen method yields, `None` when the program stops before saving anything. */
  function Fetched(ids: seq<string>, flags: Flags, w: World): Option<seq<ScholarAuthor>>
  {
    if flags.serpapi then Some(FetchWithSerpapi(w.env, w.serpApi, ids, w.now))
    else if flags.scholarly then Some(FetchWithScholarly(w.lookup, w.fill, w.now, ids))
    else if flags.manual then ManualEntry(ids, w.console, 0, w.now)
    else if ScraperSerpApi.HasKey(w.env) then Some(FetchWithSerpapi(w.env, w.serpApi, ids, w.now))
    else None
  }

  /** `main`: load the ids, fetch them with the chosen method, then save (and rank) what came back. */
  function Main(file: IdFile, flags: Flags, w: World): (r: Outcome)
    ensures r == NoIds <==> LoadIdsFromFile(file) == []
    ensures r == NoKey <==> LoadIdsFromFile(file) != [] && !flags.serpapi && !flags.scholarly && !flags.manual
                            && !ScraperSerpApi.HasKey(w.env)
    ensures r.ConsoleClosed? ==> flags.manual && !flags.serpapi && !flags.scholarly
    ensures r.Saved? ==> |r.authors| > 0 && (r.ranking.Some? <==> !flags.noRanking)
    ensures r.Saved? && flags.serpapi ==> ScraperSerpApi.HasKey(w.env) && IsSubseq(ScholarIds(r.authors), LoadIdsFromFile(file))
    ensures r.Saved? && r.ranking.Some? ==> |r.ranking.value| == |Metrics.CleanData(FromRecords(r.authors))|
  {
    var ids := LoadIdsFromFile(file);
    if ids == [] then NoIds
    else
      var noMethod := !flags.serpapi && !flags.scholarly && !flags.manual;
      if noMethod && !ScraperSerpApi.HasKey(w.env) then NoKey
      else
        match Fetched(ids, flags, w)
        case None => ConsoleClosed
        case Some(authors) =>
          if authors == [] then NoAuthors
          else Saved(authors, SaveResults(authors, !flags.noRanking))
  }

  /** `--serpapi` without a key fetches nothing, so nothing is saved. */
  lemma SerpapiWithoutKey(file: IdFile, flags: Flags, w: World)
    requires flags.serpapi && !ScraperSerpApi.HasKey(w.env) && LoadIdsFromFile(file) != []
    ensures Main(file, flags, w) == NoAuthors
  {
  }
}
