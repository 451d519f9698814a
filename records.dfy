/** The values the result extractor produces and consumes. */
module Records {
  import opened Outcomes

  /** One earlier (name, city) of a company, at its 1-based position in the history. */
  datatype HistoryEntry = HistoryEntry(position: nat, name: string, city: string)

  /** The dictionary `parse_result` builds for one result row. */
  datatype Company = Company(
    court: string,
    name: string,
    city: string,
    active: bool,
    documents: string,
    history: seq<HistoryEntry>)

  /** A `<tr>` of the results grid: its `data-ri` attribute, if any, and the
      text of each of its `<td>` cells in document order, before trimming. */
  datatype Row = Row(dataRi: Option<string>, cellTexts: seq<string>)

  /** The exceptions that abort the extraction of a whole page. */
  datatype Failure =
    | NoResultsGrid                      // `grid` is None: `grid.find_all` raises
    | CellIndexOutOfRange(index: nat)    // `cells[index]` raises IndexError
}
