/**
 * Manual additions to the raw author set (`add_researchers.py`): the dict of known authors
 * keyed by Scholar id, and the three ways of adding to it (one id, a file of ids, a pick
 * among search results). Fetching a profile is a parameter standing for the Scholar
 * scraper's `get_author_by_id`; the console prompt is a parameter holding the typed answer.
 */
module AddResearchers {
  import opened Wrappers
  import opened Text
  import opened Seqs
  import opened Cells
  import opened Records
  import Scraper

  /** The dict of known authors, keyed by Scholar id. */
  type Authors = map<string, ScholarAuthor>

  type Fetch = string -> Option<ScholarAuthor>

  function Itself(a: ScholarAuthor): ScholarAuthor { a }

  /**
   * `load_existing_authors`: the newest raw file (the last of the files in name order) as a
   * dict keyed by `scholar_id`, a later duplicate overwriting an earlier one; no file, no authors.
   */
  function LoadExistingAuthors(files: seq<seq<ScholarAuthor>>): Authors
  {
    if |files| == 0 then map[] else LastWins(files[|files| - 1], ScholarId, Itself)
  }

  lemma LoadExistingAuthorsFacts(files: seq<seq<ScholarAuthor>>)
    ensures |files| == 0 ==> LoadExistingAuthors(files) == map[]
    ensures |files| > 0 ==>
              var last := files[|files| - 1];
              LoadExistingAuthors(files).Keys == KeysOf(last, ScholarId)
              && forall i :: 0 <= i < |last| && (forall j :: i < j < |last| ==> last[j].scholarId != last[i].scholarId)
                   ==> last[i].scholarId in LoadExistingAuthors(files)
                       && LoadExistingAuthors(files)[last[i].scholarId] == last[i]
  {
    if |files| > 0 {
      LastWinsFacts(files[|files| - 1], ScholarId, Itself);
    }
  }

  // ---------------------------------------------------------------- add_by_id

  /**
   * `add_by_id`: an id already known is refused; otherwise the fetched author is added under
   * the requested id. It reports whether the dict grew; no existing entry is ever replaced.
   */
  function AddById(scholarId: string, authors: Authors, fetch: Fetch): (r: (bool, Authors))
    ensures r.0 <==> scholarId !in authors && fetch(scholarId).Some?
    ensures !r.0 ==> r.1 == authors
    ensures r.0 ==> r.1.Keys == authors.Keys + {scholarId} && r.1[scholarId] == fetch(scholarId).value
    ensures forall k :: k in authors ==> k in r.1 && r.1[k] == authors[k]
    ensures |r.1| == |authors| + (if r.0 then 1 else 0)
  {
    if scholarId in authors then (false, authors)
    else
      match fetch(scholarId)
      case None => (false, authors)
      case Some(a) => (true, authors[scholarId := a])
  }

  /** A known id is answered without fetching: the result is the same whatever `fetch` does. */
  lemma AddByIdKnownNoFetch(scholarId: string, authors: Authors, fetch1: Fetch, fetch2: Fetch)
    requires scholarId in authors
    ensures AddById(scholarId, authors, fetch1) == AddById(scholarId, authors, fetch2) == (false, authors)
  {
  }

  /**
   * `add_by_id` over a list of ids, counting the successes: the count is the growth of the
   * dict, known entries are untouched, every new entry is a fetched id of the list, and every
   * id of the list that can be fetched is in the dict afterwards.
   */
  method AddIds(ids: seq<string>, authors: Authors, fetch: Fetch) returns (added: int, out: Authors)
    ensures added == |out| - |authors| && 0 <= added <= |ids|
    ensures forall k :: k in authors ==> k in out && out[k] == authors[k]
    ensures forall k :: k in out && k !in authors ==> k in ids && fetch(k) == Some(out[k])
    ensures forall k :: k in ids && fetch(k).Some? ==> k in out
  {
    added, out := 0, authors;
    for i := 0 to |ids|
      invariant (added, out) == AddFold(ids[..i], authors, fetch)
    {
      var r := AddById(ids[i], out, fetch);
      assert ids[..i + 1][..i] == ids[..i];
      added, out := added + (if r.0 then 1 else 0), r.1;
    }
    assert ids[..|ids|] == ids;
    AddFoldFacts(ids, authors, fetch);
  }

  /** `add_by_id` on each id in turn, with the running count of successes. */
  function AddFold(ids: seq<string>, authors: Authors, fetch: Fetch): (int, Authors)
    decreases |ids|
  {
    if |ids| == 0 then (0, authors)
    else
      var p := AddFold(ids[..|ids| - 1], authors, fetch);
      var r := AddById(ids[|ids| - 1], p.1, fetch);
      (p.0 + (if r.0 then 1 else 0), r.1)
  }

  lemma {:induction false} AddFoldFacts(ids: seq<string>, authors: Authors, fetch: Fetch)
    ensures AddedSoFar(ids, authors, fetch, AddFold(ids, authors, fetch).0, AddFold(ids, authors, fetch).1)
    decreases |ids|
  {
    if |ids| > 0 {
      var front := ids[..|ids| - 1];
      AddFoldFacts(front, authors, fetch);
      var p := AddFold(front, authors, fetch);
      AddByIdStep(front, ids[|ids| - 1], authors, fetch, p.0, p.1);
      assert front + [ids[|ids| - 1]] == ids;
    }
  }

  /** What trying the ids of `tried` in turn leaves behind: `added` new entries, each fetched for one of them. */
  predicate AddedSoFar(tried: seq<string>, authors: Authors, fetch: Fetch, added: int, out: Authors)
  {
    && added == |out| - |authors| && 0 <= added <= |tried|
    && (forall k :: k in authors ==> k in out && out[k] == authors[k])
    && (forall k :: k in out && k !in authors ==> k in tried && fetch(k) == Some(out[k]))
    && (forall k :: k in tried && fetch(k).Some? ==> k in out)
  }

  /** One more `add_by_id` keeps the earlier entries and adds only a fetched, requested id. */
  lemma AddByIdStep(tried: seq<string>, id: string, authors: Authors, fetch: Fetch, added: int, out: Authors)
    requires AddedSoFar(tried, authors, fetch, added, out)
    ensures var r := AddById(id, out, fetch);
            AddedSoFar(tried + [id], authors, fetch, added + (if r.0 then 1 else 0), r.1)
  {
  }

  // ---------------------------------------------------------------- add_from_file

  const ID_COLUMNS: seq<string> := ["scholar_id", "id", "google_scholar_id", "ID"]

  /** `str(scholar_id).strip()` of a present cell. */
  function CellId(c: Cell): Option<string>
  {
    if c.Missing? then None else Some(Strip(CellText(c)))
  }

  /** The ids of a column: present cells, as stripped text, in order. */
  function FileIds(column: seq<Cell>): seq<string>
  {
    Successes(column, CellId)
  }

  function AsCells(lines: seq<string>): (r: seq<Cell>)
    ensures |r| == |lines| && forall i :: 0 <= i < |lines| ==> r[i] == Str(lines[i])
  {
    seq(|lines|, i requires 0 <= i < |lines| => Str(lines[i]))
  }

  /** The table a file yields: a spreadsheet as read, plain text as a one-column `scholar_id` table. */
  function TableOf(file: IdFile): Table
  {
    match file
    case Sheet(t) => t
    case PlainText(lines) => Table(["scholar_id"], map["scholar_id" := AsCells(LineIds(lines))])
  }

  /** The ids `add_from_file` tries, `None` when no id column exists. */
  function IdsToAdd(file: IdFile): Option<seq<string>>
  {
    var t := TableOf(file);
    match FirstColumn(t.columns, ID_COLUMNS)
    case None => None
    case Some(col) => Some(FileIds(Column(t, col)))
  }

  /** For a plain-text file the ids tried are exactly its non-blank lines, stripped, in order. */
  lemma {:induction false} PlainTextIds(lines: seq<string>)
    ensures IdsToAdd(PlainText(lines)) == Some(LineIds(lines))
  {
    var cells := AsCells(LineIds(lines));
    assert FirstColumn(["scholar_id"], ID_COLUMNS) == Some("scholar_id");
    CellIdsOfStripped(LineIds(lines));
  }

  lemma CellIdsOfStripped(xs: seq<string>)
    requires forall i :: 0 <= i < |xs| ==> Strip(xs[i]) == xs[i]
    ensures FileIds(AsCells(xs)) == xs
  {
    var cells := AsCells(xs);
    assert forall i :: 0 <= i < |cells| ==> CellId(cells[i]) == Some(xs[i]);
    SuccessesAllSome(cells, CellId, xs);
  }

  /**
   * `add_from_file`: nothing is added when the file has no id column; otherwise each present
   * id of the first id column is tried in turn, and the count returned is the dict's growth.
   */
  method AddFromFile(file: IdFile, authors: Authors, fetch: Fetch) returns (added: int, out: Authors)
    ensures IdsToAdd(file).None? ==> added == 0 && out == authors
    ensures added == |out| - |authors| && added >= 0
    ensures forall k :: k in authors ==> k in out && out[k] == authors[k]
    ensures forall k :: k in out && k !in authors ==> IdsToAdd(file).Some? && k in IdsToAdd(file).value && fetch(k) == Some(out[k])
    ensures IdsToAdd(file).Some? ==> forall k :: k in IdsToAdd(file).value && fetch(k).Some? ==> k in out
  {
    match IdsToAdd(file)
    case None =>
      added, out := 0, authors;
    case Some(ids) =>
      added, out := AddIds(ids, authors, fetch);
  }

  // ---------------------------------------------------------------- search_and_add

  /** The answer to the prompt. */
  datatype Selection = Cancel | Everything | Numbers(indices: seq<int>) | Unreadable

  /** `int(x.strip()) - 1` for one piece. */
  function PieceIndex(piece: string): Option<int>
  {
    match ParseInt(piece)
    case None => None
    case Some(n) => Some(n - 1)
  }

  /**
   * How the typed answer is read: "cancelar", "todos" (any case), or 1-based numbers separated
   * by commas, each turned into a 0-based index; one piece `int()` rejects spoils the answer.
   */
  function ReadSelection(answer: string): (r: Selection)
    ensures r.Cancel? <==> Lower(answer) == "cancelar"
    ensures r.Everything? <==> Lower(answer) == "todos"
    ensures r.Numbers? ==> |r.indices| == |Split(answer, ',')|
                           && forall i :: 0 <= i < |r.indices| ==> PieceIndex(Split(answer, ',')[i]) == Some(r.indices[i])
    ensures r.Unreadable? ==> exists i :: 0 <= i < |Split(answer, ',')| && PieceIndex(Split(answer, ',')[i]).None?
  {
    if Lower(answer) == "cancelar" then Cancel
    else if Lower(answer) == "todos" then Everything
    else
      match AllOrNothing(Split(answer, ','), PieceIndex)
      case None => Unreadable
      case Some(ixs) => Numbers(ixs)
  }

  function Range(n: nat): (r: seq<int>)
    ensures |r| == n && forall i :: 0 <= i < n ==> r[i] == i
  {
    seq(n, i => i)
  }

  /** The ids behind the chosen indices: indices outside the result list, and hits without an id, are skipped. */
  function SelectedIds(results: seq<Scraper.RawProfile>, indices: seq<int>): (r: seq<string>)
    ensures forall k :: k in r ==> exists i :: 0 <= i < |indices| && 0 <= indices[i] < |results|
                                      && results[indices[i]].scholarId == Some(k) && k != ""
    ensures forall i ::
              (0 <= i < |indices| && 0 <= indices[i] < |results|
               && results[indices[i]].scholarId.Some? && results[indices[i]].scholarId.value != "")
              ==> results[indices[i]].scholarId.value in r
  {
    if |indices| == 0 then []
    else
      var idx := indices[0];
      var rest := SelectedIds(results, indices[1..]);
      assert forall i :: 1 <= i < |indices| ==> indices[i] == indices[1..][i - 1];
      if 0 <= idx < |results| && results[idx].scholarId.Some? && results[idx].scholarId.value != ""
      then [results[idx].scholarId.value] + rest
      else rest
  }

  /** A hit whose id is present, non-empty and fetchable: choosing it adds it. */
  predicate Resolvable(hit: Scraper.RawProfile, fetch: Fetch)
  {
    hit.scholarId.Some? && hit.scholarId.value != "" && fetch(hit.scholarId.value).Some?
  }

  /**
   * `search_and_add`: the first ten hits are offered; with none, or on "cancelar", or on an
   * answer `int()` rejects, nothing is added; otherwise the chosen hits are added by id.
   */
  method SearchAndAdd(hits: seq<Scraper.RawProfile>, answer: string, authors: Authors, fetch: Fetch)
    returns (added: int, out: Authors)
    ensures added == |out| - |authors| && added >= 0
    ensures forall k :: k in authors ==> k in out && out[k] == authors[k]
    ensures forall k :: k in out && k !in authors ==>
              exists i :: 0 <= i < |hits| && i < 10 && hits[i].scholarId == Some(k) && fetch(k) == Some(out[k])
    ensures |Take(hits, 10)| == 0 || ReadSelection(answer) in {Cancel, Unreadable} ==> out == authors
    ensures ReadSelection(answer).Everything? ==>
              forall i :: 0 <= i < |hits| && i < 10 && Resolvable(hits[i], fetch) ==> hits[i].scholarId.value in out
    ensures ReadSelection(answer).Numbers? ==>
              forall j :: 0 <= j < |ReadSelection(answer).indices| ==>
                var i := ReadSelection(answer).indices[j];
                0 <= i < |hits| && i < 10 && Resolvable(hits[i], fetch) ==> hits[i].scholarId.value in out
  {
    var results := Take(hits, 10);
    if |results| == 0 {
      return 0, authors;
    }
    var selection := ReadSelection(answer);
    if selection.Cancel? || selection.Unreadable? {
      return 0, authors;
    }
    var indices := if selection.Everything? then Range(|results|) else selection.indices;
    var ids := SelectedIds(results, indices);
    added, out := AddIds(ids, authors, fetch);
    ChosenOutcome(hits, indices, authors, fetch, out);
    if selection.Everything? {
      EverythingChosen(hits, indices, fetch, out);
    }
  }

  /** Adding the chosen ids leaves exactly the chosen, fetchable hits added, and nothing else new. */
  lemma ChosenOutcome(hits: seq<Scraper.RawProfile>, indices: seq<int>, authors: Authors, fetch: Fetch, out: Authors)
    requires forall k :: k in out && k !in authors ==> k in SelectedIds(Take(hits, 10), indices) && fetch(k) == Some(out[k])
    requires forall k :: k in SelectedIds(Take(hits, 10), indices) && fetch(k).Some? ==> k in out
    ensures forall k :: k in out && k !in authors ==>
              exists i :: 0 <= i < |hits| && i < 10 && hits[i].scholarId == Some(k) && fetch(k) == Some(out[k])
    ensures forall j :: 0 <= j < |indices| ==>
              var i := indices[j];
              0 <= i < |hits| && i < 10 && Resolvable(hits[i], fetch) ==> hits[i].scholarId.value in out
  {
    var results := Take(hits, 10);
    forall j | 0 <= j < |indices| && 0 <= indices[j] < |hits| && indices[j] < 10 && Resolvable(hits[indices[j]], fetch)
      ensures hits[indices[j]].scholarId.value in out
    {
      assert results[indices[j]] == hits[indices[j]];
    }
    forall k | k in out && k !in authors
      ensures exists i :: 0 <= i < |hits| && i < 10 && hits[i].scholarId == Some(k) && fetch(k) == Some(out[k])
    {
      var i := OfferedHit(hits, indices, k);
    }
  }

  /** "todos" chooses every offered hit. */
  lemma EverythingChosen(hits: seq<Scraper.RawProfile>, indices: seq<int>, fetch: Fetch, out: Authors)
    requires indices == Range(|Take(hits, 10)|)
    requires forall j :: 0 <= j < |indices| ==>
               var i := indices[j];
               0 <= i < |hits| && i < 10 && Resolvable(hits[i], fetch) ==> hits[i].scholarId.value in out
    ensures forall i :: 0 <= i < |hits| && i < 10 && Resolvable(hits[i], fetch) ==> hits[i].scholarId.value in out
  {
    forall i | 0 <= i < |hits| && i < 10 && Resolvable(hits[i], fetch)
      ensures hits[i].scholarId.value in out
    {
      assert indices[i] == i;
    }
  }

  /** A chosen id is the id of one of the first ten hits. */
  lemma OfferedHit(hits: seq<Scraper.RawProfile>, indices: seq<int>, k: string) returns (i: nat)
    requires k in SelectedIds(Take(hits, 10), indices)
    ensures i < |hits| && i < 10 && hits[i].scholarId == Some(k)
  {
    var results := Take(hits, 10);
    var j :| 0 <= j < |indices| && 0 <= indices[j] < |results| && results[indices[j]].scholarId == Some(k);
    i := indices[j];
    assert results[i] == hits[i];
  }
}
