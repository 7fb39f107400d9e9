/** Page arithmetic and publication gating of
    `sls_api/endpoints/facsimiles.py`. The database rows are given as
    parameters; the SQL text, image reading and `safe_join` are not part
    of this model. */
module Facsimiles {
  import opened Wrappers
  import opened PyStrings
  import opened Json
  import opened Http

  // ---------------------------------------------------------------------
  // The publication id of a facsimile request

  /** `publication_id.split('_')[1]`: the second `_`-separated piece, or
      the `IndexError` when there is no `_`. */
  function PublicationIdPart(publicationId: string): (r: Result<string, PyError>)
    ensures r.Failure? <==> !Contains(publicationId, "_")
    ensures r.Failure? ==> r.error == IndexError
    ensures r.Success? ==> !Contains(r.value, "_")
  {
    var parts := Split(publicationId, "_");
    SplitPiecesFree(publicationId, "_");
    if |parts| > 1 then Success(parts[1])
    else
      SplitSingle(publicationId, "_");
      Failure(IndexError)
  }

  /** A split with a single piece means the separator never occurs. */
  lemma SplitSingle(s: string, sep: string)
    requires |sep| > 0 && |Split(s, sep)| == 1
    ensures !Contains(s, sep)
  {
  }

  /** For `a_b…` with no `_` in `a`, the piece is the text after the first
      `_` up to the next one. */
  lemma PublicationIdOf(a: string, b: string)
    requires '_' !in a
    ensures PublicationIdPart(a + "_" + b) == Success(Split(b, "_")[0])
  {
    SplitAtChar(a, '_', b);
    ContainsChar(a, '_');
    SplitWithoutSep(a, "_");
    assert a + "_" + b == a + ['_'] + b;
  }

  // ---------------------------------------------------------------------
  // First and last page

  /** The columns of a `publication_facsimile` row the page numbers use. */
  datatype FacsimileRow = FacsimileRow(pageNr: int, startPageNumber: Option<int>, numberOfPages: Option<int>)

  /** `row["start_page_number"] or 0`. */
  function PrePages(row: FacsimileRow): int {
    if row.startPageNumber.Some? then row.startPageNumber.value else 0
  }

  function FirstPage(row: FacsimileRow): int {
    PrePages(row) + row.pageNr
  }

  /** The second query: the smallest page number in the collection greater
      than `p`, among the page numbers of its non-deleted facsimiles. */
  function NextPage(pages: seq<int>, p: int): (r: Option<int>)
    ensures r.None? <==> forall i :: 0 <= i < |pages| ==> pages[i] <= p
    ensures r.Some? ==> r.value > p && r.value in pages
    ensures r.Some? ==> forall i :: 0 <= i < |pages| && pages[i] > p ==> r.value <= pages[i]
  {
    if |pages| == 0 then None
    else
      var rest := NextPage(pages[1..], p);
      assert forall i :: 1 <= i < |pages| ==> pages[i] == pages[1..][i - 1];
      if pages[0] <= p then rest
      else if rest.Some? && rest.value < pages[0] then rest
      else Some(pages[0])
  }

  /** `last_page`: one before the next facsimile of the collection, counted
      with this row's pre-pages; without a next facsimile, the row's
      `number_of_pages` (JSON null when unset). */
  function LastPage(row: FacsimileRow, collectionPages: seq<int>): (r: Option<int>)
    ensures NextPage(collectionPages, row.pageNr).None? ==> r == row.numberOfPages
  {
    match NextPage(collectionPages, row.pageNr)
    case Some(next) => Some(PrePages(row) + next - 1)
    case None => row.numberOfPages
  }

  /** With a next facsimile, this one's pages end right before the first
      page of the next, when both count the same pre-pages; and the range
      is not empty. */
  lemma PagesTile(row: FacsimileRow, collectionPages: seq<int>, nextRow: FacsimileRow)
    requires nextRow.pageNr in collectionPages && nextRow.pageNr > row.pageNr
    requires forall i :: 0 <= i < |collectionPages| && collectionPages[i] > row.pageNr ==> collectionPages[i] >= nextRow.pageNr
    requires PrePages(nextRow) == PrePages(row)
    ensures LastPage(row, collectionPages) == Some(FirstPage(nextRow) - 1)
    ensures FirstPage(row) <= LastPage(row, collectionPages).value
  {
    var n := NextPage(collectionPages, row.pageNr);
    var i :| 0 <= i < |collectionPages| && collectionPages[i] == nextRow.pageNr;
    assert n.Some?;
    assert n.value == nextRow.pageNr;
  }

  // ---------------------------------------------------------------------
  // Publication gating of a facsimile file

  const FileNotFound := "Desired facsimile file not found in database."

  /** The status check of `get_facsimile_file`. `showInternal` is the
      project's `show_internally_published` (`None`: no such project);
      `published` is the row of the status query (`None`: no row) holding
      `int(published)` (`None`: the conversion failed). */
  function FileAccess(showInternal: Option<bool>, published: Option<Option<int>>): (r: Result<(), Failure>)
    ensures showInternal.None? ==> r == Failure(Rejected(400, "No such project."))
    ensures showInternal.Some? && r.Failure? ==> r.error == Rejected(404, FileNotFound)
  {
    if showInternal.None? then Failure(Rejected(400, "No such project."))
    else if published.None? || published.value.None? then Failure(Rejected(404, FileNotFound))
    else
      var status := published.value.value;
      if status == 0 then Failure(Rejected(404, FileNotFound))
      else if status == 1 && !showInternal.value then Failure(Rejected(404, FileNotFound))
      else Success(())
  }

  /** The file is served exactly for a known project whose publication
      status converts and is neither 0 nor, unless internally published
      texts are shown, 1. Every other status, negative ones included,
      passes. */
  lemma FileAccessIff(showInternal: Option<bool>, published: Option<Option<int>>)
    ensures FileAccess(showInternal, published).Success? <==>
              showInternal.Some? && published.Some? && published.value.Some?
              && published.value.value != 0 && (published.value.value == 1 ==> showInternal.value)
  {
  }
}
