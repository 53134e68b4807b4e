/**
 * The values handed from the news API to the extraction step, and the rows
 * of the extracted table.  JSON decoding is not modelled: a result of the
 * `results` array is taken as already decoded into its five string fields.
 */
module Records {

  /** Present-or-absent value, used for the hand-off that may not be published. */
  datatype Option<+T> = None | Some(value: T)

  /** One element of the API response's `results` array (only the fields the DAG reads). */
  datatype ResultItem = ResultItem(
    itemType: string,
    abstractText: string,
    title: string,
    url: string,
    createdDate: string)

  /** One row of the extracted table. */
  datatype Row = Row(title: string, abstractText: string, url: string, createdDate: string)

  /** The named columns of the extracted table. */
  datatype Column = Title | Abstract | Url | CreatedDate

  /** The value a row holds in a column. */
  function Field(row: Row, column: Column): string
  {
    match column
    case Title => row.title
    case Abstract => row.abstractText
    case Url => row.url
    case CreatedDate => row.createdDate
  }

  /** The only `item_type` the extraction keeps. */
  const ArticleType: string := "Article"

  /** The extraction's filter: exact, case-sensitive comparisons, no trimming. */
  predicate Qualifies(item: ResultItem)
  {
    item.itemType == ArticleType && item.abstractText != ""
  }

  /** The four fields a kept result contributes to the table. */
  function RowOf(item: ResultItem): Row
  {
    Row(item.title, item.abstractText, item.url, item.createdDate)
  }
}
