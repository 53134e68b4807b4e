/**
 * Extraction followed by insert generation, with the count published by the
 * extraction: what reaches raw_data is exactly the qualifying results.
 */
module Pipeline {
  import opened Records
  import opened Extract
  import opened Load

  /** With the count the extraction publishes, statement j carries the fields
      of the j-th qualifying result, and there is one statement per
      qualifying result. */
  lemma {:induction false} InsertsFromQualifyingResults(results: seq<ResultItem>)
    ensures var rows := KeptRows(results);
      var stmts := InsertStatements(rows, |rows|);
      && |stmts| == |QualifyingPositions(results)|
      && |stmts| == |KeptIndices(results)|
      && forall j :: 0 <= j < |stmts| ==>
           && KeptIndices(results)[j] < |results|
           && Qualifies(results[KeptIndices(results)[j]])
           && stmts[j] == InsertFor(j, RowOf(results[KeptIndices(results)[j]]))
  {
    KeptRowsCharacterised(results);
    KeptRowsCount(results);
  }

  /** An empty response, or one in which nothing qualifies, gives an empty
      table, a count of 0 and no statements. */
  lemma NothingQualifiesNoInserts(results: seq<ResultItem>)
    requires forall k :: 0 <= k < |results| ==> !Qualifies(results[k])
    ensures var rows := KeptRows(results);
      && rows == []
      && InsertStatements(rows, |rows|) == []
  {
  }

  /** Only the exact `item_type` "Article" qualifies, and any non-empty
      abstract, even a single blank, does. */
  lemma FilterIsExact(title: string, url: string, date: string)
    ensures !Qualifies(ResultItem("article", "A", title, url, date))
    ensures !Qualifies(ResultItem("Article", "", title, url, date))
    ensures Qualifies(ResultItem("Article", " ", title, url, date))
  {
  }

  /** An article, a video and an article without abstract: one row, one statement. */
  lemma MixedResponse()
    ensures var results := [
        ResultItem("Article", "A", "T", "u1", "2023-01-01"),
        ResultItem("Video", "B", "V", "v1", "2023-01-03"),
        ResultItem("Article", "", "T2", "u2", "2023-01-02")];
      var rows := KeptRows(results);
      && rows == [Row("T", "A", "u1", "2023-01-01")]
      && InsertStatements(rows, |rows|) == [InsertRecord(0, "2023-01-01", "T", "A", "u1")]
  {
  }

  /** The extraction followed by insert generation with the count it
      published: no statements unless the status is 200, and otherwise one
      statement per qualifying result, statement j carrying the j-th. */
  method ExtractThenInsert(status: int, results: seq<ResultItem>) returns (stmts: Option<seq<InsertRecord>>)
    ensures stmts.None? <==> status != OkStatus
    ensures stmts.Some? ==> |stmts.value| == |QualifyingPositions(results)|
    ensures stmts.Some? ==> |stmts.value| == |KeptIndices(results)|
    ensures stmts.Some? ==> forall j :: 0 <= j < |stmts.value| ==>
      && KeptIndices(results)[j] < |results|
      && stmts.value[j] == InsertFor(j, RowOf(results[KeptIndices(results)[j]]))
  {
    var published := ExtractData(status, results);
    if published.None? {
      return None;
    }
    var handoff := published.value;
    InsertsFromQualifyingResults(results);
    stmts := Some(InsertStatements(handoff.nytRawData, handoff.dfLen as nat));
  }
}
