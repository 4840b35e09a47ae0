/**
 * The tabular values the matching engine passes around: cells of the
 * uploaded CSV files, rows of the broken-links table after translation,
 * and the two-column redirect records that are exported.
 */
module Tables {
  import opened Wrappers

  /** A cell read by pandas: a string, or a missing value (NaN). */
  datatype Cell = Text(s: string) | Missing

  /** How an f-string renders a cell: NaN prints as "nan". */
  function Display(c: Cell): (r: string)
    ensures c.Text? ==> r == c.s
  {
    match c
    case Text(s) => s
    case Missing => "nan"
  }

  /** Python truthiness of a cell: the empty string is false, NaN is true. */
  predicate Truthy(c: Cell) {
    c.Missing? || |c.s| > 0
  }

  /**
   * One row of the broken-links table once it has been translated: the
   * source URL ("Redirect from"), the extracted slug fragment ("slug"), the
   * fragment with hyphens turned into spaces ("clean_slug") and the English
   * guess ("translated_guess"). A fragment is None where the URL did not
   * contain the product path (pandas stores NaN there).
   */
  datatype RedirectRow = RedirectRow(
    from: string,
    slug: Option<string>,
    cleanSlug: Option<string>,
    guess: string)

  /** A row of the exported redirect table. */
  datatype Redirect = Redirect(from: string, to: Cell)

  function OptionCell(o: Option<string>): Cell {
    match o
    case Some(s) => Text(s)
    case None => Missing
  }

  /**
   * Looking a column up by name in a row, as `row[name]` does on a
   * pandas row: the row knows exactly the columns the program gives it.
   */
  function Column(row: RedirectRow, name: string): (r: Option<Cell>)
    ensures r.Some? <==> name in {"Redirect from", "slug", "clean_slug", "translated_guess"}
  {
    if name == "Redirect from" then Some(Text(row.from))
    else if name == "slug" then Some(OptionCell(row.slug))
    else if name == "clean_slug" then Some(OptionCell(row.cleanSlug))
    else if name == "translated_guess" then Some(Text(row.guess))
    else None
  }
}
