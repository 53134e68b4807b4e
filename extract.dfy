/**
 * The extraction task: on an HTTP 200 response, keep the results that are
 * articles with a non-empty abstract, gather their title, abstract, url and
 * creation date into four parallel columns, build the table from them and
 * publish it together with its row count.
 */
module Extract {
  import opened Records

  /** The HTTP status the extraction treats as success. */
  const OkStatus: int := 200

  /** What the extraction publishes for the downstream tasks: the table under
      the key `nyt_raw_data` and its length as the variable `DF_LEN`. */
  datatype Handoff = Handoff(nytRawData: seq<Row>, dfLen: int)

  /** Specification of the filter: the rows of the qualifying results, in
      response order (defined from the back, as the loop appends). */
  function KeptRows(results: seq<ResultItem>): (rows: seq<Row>)
    ensures |rows| <= |results|
    decreases |results|
  {
    if results == [] then []
    else
      var last := results[|results| - 1];
      KeptRows(results[..|results| - 1]) + (if Qualifies(last) then [RowOf(last)] else [])
  }

  /** Positions in `results` of the qualifying results, ascending. */
  function KeptIndices(results: seq<ResultItem>): seq<nat>
    decreases |results|
  {
    if results == [] then []
    else
      KeptIndices(results[..|results| - 1])
        + (if Qualifies(results[|results| - 1]) then [|results| - 1] else [])
  }

  /** Positions of `results` whose element passes the filter. */
  function QualifyingPositions(results: seq<ResultItem>): set<nat>
  {
    set k: nat | k < |results| && Qualifies(results[k])
  }

  /** The table pandas builds from four equally long columns. */
  function FromColumns(titles: seq<string>, abstracts: seq<string>, urls: seq<string>, createdDates: seq<string>): (table: seq<Row>)
    requires |titles| == |abstracts| == |urls| == |createdDates|
  {
    seq(|titles|, j requires 0 <= j < |titles| => Row(titles[j], abstracts[j], urls[j], createdDates[j]))
  }

  /** One column of a table, top to bottom. */
  function ColumnValues(table: seq<Row>, column: Column): (values: seq<string>)
  {
    seq(|table|, j requires 0 <= j < |table| => Field(table[j], column))
  }

  /** Building the table from columns and reading the columns back are inverse. */
  lemma FromColumnsRoundTrip(titles: seq<string>, abstracts: seq<string>, urls: seq<string>, createdDates: seq<string>)
    requires |titles| == |abstracts| == |urls| == |createdDates|
    ensures var table := FromColumns(titles, abstracts, urls, createdDates);
      && ColumnValues(table, Title) == titles
      && ColumnValues(table, Abstract) == abstracts
      && ColumnValues(table, Url) == urls
      && ColumnValues(table, CreatedDate) == createdDates
  {
  }

  /** Every table is the one built from its own columns. */
  lemma ColumnsRebuildTable(table: seq<Row>)
    ensures FromColumns(ColumnValues(table, Title), ColumnValues(table, Abstract),
                        ColumnValues(table, Url), ColumnValues(table, CreatedDate)) == table
  {
  }

  /** Row j of the kept rows comes from result KeptIndices(results)[j], which
      qualifies; the positions ascend (order is preserved); and every
      qualifying position is among them (nothing that qualifies is dropped). */
  lemma {:induction false} KeptRowsCharacterised(results: seq<ResultItem>)
    ensures |KeptIndices(results)| == |KeptRows(results)|
    ensures forall j :: 0 <= j < |KeptIndices(results)| ==>
      && KeptIndices(results)[j] < |results|
      && Qualifies(results[KeptIndices(results)[j]])
      && KeptRows(results)[j] == RowOf(results[KeptIndices(results)[j]])
    ensures forall j, j' :: 0 <= j < j' < |KeptIndices(results)| ==>
      KeptIndices(results)[j] < KeptIndices(results)[j']
    ensures forall k :: 0 <= k < |results| && Qualifies(results[k]) ==> k in KeptIndices(results)
    decreases |results|
  {
    if results != [] {
      var n := |results|;
      var prefix := results[..n - 1];
      KeptRowsCharacterised(prefix);
      assert forall k :: 0 <= k < n - 1 ==> prefix[k] == results[k];
    }
  }

  /** The number of kept rows is the number of qualifying results. */
  lemma {:induction false} KeptRowsCount(results: seq<ResultItem>)
    ensures |KeptRows(results)| == |QualifyingPositions(results)|
    decreases |results|
  {
    if results != [] {
      var n := |results|;
      var prefix := results[..n - 1];
      KeptRowsCount(prefix);
      var before := QualifyingPositions(prefix);
      assert n - 1 !in before;
      if Qualifies(results[n - 1]) {
        assert QualifyingPositions(results) == before + {n - 1};
      } else {
        assert QualifyingPositions(results) == before;
      }
    }
  }

  /** Filtering a concatenation filters each part: kept rows keep their
      relative order across any split of the response. */
  lemma {:induction false} KeptRowsAppend(a: seq<ResultItem>, b: seq<ResultItem>)
    ensures KeptRows(a + b) == KeptRows(a) + KeptRows(b)
    decreases |b|
  {
    if b == [] {
      assert a + b == a;
    } else {
      var n := |b|;
      assert (a + b)[..|a + b| - 1] == a + b[..n - 1];
      KeptRowsAppend(a, b[..n - 1]);
    }
  }

  /** A response in which nothing qualifies yields an empty table. */
  lemma {:induction false} NothingQualifiesNothingKept(results: seq<ResultItem>)
    requires forall k :: 0 <= k < |results| ==> !Qualifies(results[k])
    ensures KeptRows(results) == []
    decreases |results|
  {
    if results != [] {
      var prefix := results[..|results| - 1];
      assert forall k :: 0 <= k < |prefix| ==> prefix[k] == results[k];
      NothingQualifiesNothingKept(prefix);
    }
  }

  /** `extract_data` after the HTTP call: nothing is published unless the
      status is 200; otherwise the table of the qualifying results is
      published with its length as the count. */
  method ExtractData(status: int, results: seq<ResultItem>) returns (published: Option<Handoff>)
    ensures published.None? <==> status != OkStatus
    ensures published.Some? ==> published.value.nytRawData == KeptRows(results)
    ensures published.Some? ==> published.value.dfLen == |published.value.nytRawData|
  {
    if status != OkStatus {
      return None;
    }
    var titles: seq<string> := [];
    var abstracts: seq<string> := [];
    var urls: seq<string> := [];
    var createdDates: seq<string> := [];
    var i := 0;
    while i < |results|
      invariant 0 <= i <= |results|
      invariant |titles| == |abstracts| == |urls| == |createdDates| == |KeptRows(results[..i])|
      invariant forall j :: 0 <= j < |titles| ==>
        KeptRows(results[..i])[j] == Row(titles[j], abstracts[j], urls[j], createdDates[j])
    {
      assert results[..i + 1][..i] == results[..i];
      if results[i].itemType == "Article" && results[i].abstractText != "" {
        titles := titles + [results[i].title];
        abstracts := abstracts + [results[i].abstractText];
        urls := urls + [results[i].url];
        createdDates := createdDates + [results[i].createdDate];
      }
      i := i + 1;
    }
    assert results[..i] == results;
    var df := FromColumns(titles, abstracts, urls, createdDates);
    published := Some(Handoff(df, |df|));
  }
}
