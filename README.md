# NYT business-news DAG: extraction and insert generation

This project models the two pieces of logic in the Airflow DAG `NYT_API_DAG`
(`docker-airflow/dags/nyt_dag.py`) that make real decisions:

- **Extraction** (`extract_data`). After the HTTP call, and only when the status
  is 200, the task walks the response's `results` array by index. It keeps an
  element iff its `item_type` is exactly `"Article"` and its `abstract` is not
  the empty string. For each kept element it appends `title`, `abstract`, `url`
  and `created_date` to four parallel lists. It then builds a table from those
  lists, publishes it under the key `nyt_raw_data` and publishes its length as
  the variable `DF_LEN`. `Extract.ExtractData` is this loop, written as an
  imperative method over four growing sequences. The published hand-off is an
  `Option<Handoff>` that is `None` when the status is not 200.
- **Insert generation** (the `insert_raw_table` task). A comprehension over
  `range(DF_LEN)` yields one `INSERT INTO raw_data` per index `i`. Each insert
  takes row `i`'s `created_date`, `title`, `abstract` and `url`, in the column
  order of the `raw_data` DDL. `Load.InsertStatements` models the statements as
  records holding the index and the four values. The count is a separate
  parameter, because the DAG reads `DF_LEN` apart from the table. The function
  requires `count <= |rows|`, which is what makes every row lookup valid.

The filter is specified by `Extract.KeptRows`. The reference enumeration
`Extract.KeptIndices` and the set `Extract.QualifyingPositions` pin down which
results the filter keeps and in what order. `Pipeline` connects the two stages:
with the count the extraction publishes, the statements carry exactly the
qualifying results, in response order.

Modules: `Records` (decoded API results, table rows, the filter predicate),
`Extract`, `Load`, `Pipeline`.

On a non-200 response `extract_data` skips the block under
`if response.status_code == 200` (nyt_dag.py:24) and returns normally. The
task succeeds without publishing, so nothing signals the failure. The model
does the same: the result is `None` and no error is raised.

## Model

| member | source | states |
|---|---|---|
| `Extract.ExtractData` | docker-airflow/dags/nyt_dag.py:24-46 | nothing is published iff the status is not 200; on 200 the published table is exactly the filtered rows of `results`, and the published count equals the table's length |
| `Extract.KeptRows` | docker-airflow/dags/nyt_dag.py:31-36 | the filter never yields more rows than there are results |
| `Extract.KeptRowsCharacterised` | docker-airflow/dags/nyt_dag.py:31-36 | kept row j comes from a result that is an "Article" with a non-empty abstract; the source positions strictly ascend (order preserved); every qualifying result is kept |
| `Extract.KeptRowsCount` | docker-airflow/dags/nyt_dag.py:31-36 | the number of rows equals the number of positions of `results` whose element qualifies |
| `Extract.KeptRowsAppend` | docker-airflow/dags/nyt_dag.py:31-36 | filtering a concatenation is the concatenation of the filtered parts, so relative order is kept |
| `Extract.NothingQualifiesNothingKept` | docker-airflow/dags/nyt_dag.py:31-43 | a response in which no result qualifies, including an empty one, yields an empty table |
| `Extract.FromColumnsRoundTrip` | docker-airflow/dags/nyt_dag.py:38-43 | the table built from the four equally long lists gives back each list as its column, so index j of every list belongs to the same row |
| `Extract.ColumnsRebuildTable` | docker-airflow/dags/nyt_dag.py:38-43 | every table is the one built from its own four columns |
| `Load.InsertStatements` | docker-airflow/dags/nyt_dag.py:59-76 | given count n (at most the table's length), exactly n statements; statement i reads row i, and the value in each position is the field of row i that the raw_data column in that position is filled from |
| `Load.InsertStatementsPrefix` | docker-airflow/dags/nyt_dag.py:76 | the statements for a smaller count are a prefix of those for a larger one |
| `Load.InsertsLoadPrefix` | docker-airflow/dags/nyt_dag.py:67-76 | the rows the statements for count n carry are exactly the first n rows of the table, in order (database constraint checks not modelled) |
| `Load.InsertsLoadTable` | docker-airflow/dags/nyt_dag.py:67-76 | when the count equals the table's length, the statements carry the whole table, in order |
| `Load.ValuesFollowDdl` | docker-airflow/dags/nyt_dag.py:59-75 | in every generated statement, the value in the position of raw_data's column date, title, abstract or url is row i's created_date, title, abstract or url respectively |
| `Pipeline.ExtractThenInsert` | docker-airflow/dags/nyt_dag.py:24-76 | running the extraction and then generating statements from the published table and count yields nothing iff the status is not 200; otherwise one statement per qualifying result, statement j carrying the fields of the j-th qualifying result |
| `Pipeline.InsertsFromQualifyingResults` | docker-airflow/dags/nyt_dag.py:31-76 | with the published count, there is one statement per qualifying result, and statement j carries the fields of the j-th qualifying result |
| `Pipeline.NothingQualifiesNoInserts` | docker-airflow/dags/nyt_dag.py:31-76 | an empty or fully filtered response yields an empty table, count 0 and no statements |
| `Pipeline.FilterIsExact` | docker-airflow/dags/nyt_dag.py:32 | `item_type` "article" is rejected, an empty abstract is rejected, and an abstract of one blank is kept |
| `Pipeline.MixedResponse` | docker-airflow/dags/nyt_dag.py:31-76 | an article, a video and an article with an empty abstract give one row and one statement, for the first article |

## Left out

- The HTTP request (`requests.get`), its missing timeout, and network failures. The status code and the decoded `results` sequence are inputs.
- JSON decoding. A missing `results` key or a missing field raises `KeyError` in the source, and a JSON `null` field is compared as `None`. The model takes every field as a string.
- pandas. The `DataFrame` is a sequence of rows (`Extract.FromColumns`), and `.iloc[i]` is indexing into it.
- Airflow plumbing: XCom push and pull, `Variable.get` and `Variable.set`, the DAG object, its schedule and the task ordering. The hand-off is the method's result. The text round trip of `DF_LEN` through the variable store is not modelled.
- Postgres execution: the idempotence of `CREATE TABLE IF NOT EXISTS`, and the PRIMARY KEY and UNIQUE checks on `date` and `url`. Statement execution is modelled only as the rows the statements carry (`Load.Loaded`); a repeated `created_date` or `url`, which the database would reject, is not.
- Jinja templating and SQL quoting of the values. Statements are records, not text.
- A stale `DF_LEN`: the insert task reads `DF_LEN` when the DAG file is parsed. `Load.InsertStatements` requires the count not to exceed the table's length and says nothing about what happens otherwise. A negative count, which yields an empty range in the source, is excluded by the `nat` type.
