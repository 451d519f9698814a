/** `extract_companies_in_search_results`: the rows of the results grid that
    carry a `data-ri` attribute are parsed, in document order; every other row
    is skipped. A page without a grid, or a data row too short to parse, aborts
    the whole extraction. */
module Extraction {
  import opened Outcomes
  import opened Records
  import opened ResultParser

  predicate IsDataRow(row: Row) {
    row.dataRi.Some?
  }

  /** The rows that carry a `data-ri` attribute, in document order. */
  function DataRows(rows: seq<Row>): seq<Row>
  {
    if rows == [] then []
    else (if IsDataRow(rows[0]) then [rows[0]] else []) + DataRows(rows[1..])
  }

  /** The outcome of a loop that stops at the first failure: the first `Err`
      in `rs`, or all the values when there is none. */
  function Collect<T, E>(rs: seq<Result<T, E>>): Result<seq<T>, E>
  {
    if rs == [] then Ok([])
    else match rs[0]
      case Err(e) => Err(e)
      case Ok(x) =>
        match Collect(rs[1..])
        case Err(e) => Err(e)
        case Ok(xs) => Ok([x] + xs)
  }

  /** `parse_result` applied to each row. */
  function ParseEach(rows: seq<Row>): seq<Result<Company, Failure>>
  {
    seq(|rows|, k requires 0 <= k < |rows| => ParseRow(rows[k].cellTexts))
  }

  /** The result of extraction from a page whose results grid has the rows
      `grid.value`, or that has no grid (`None`). */
  function Extract(grid: Option<seq<Row>>): Result<seq<Company>, Failure>
  {
    match grid
    case None => Err(NoResultsGrid)
    case Some(rows) => Collect(ParseEach(DataRows(rows)))
  }

  // ---------------------------------------------------------------------------
  // Row selection
  // ---------------------------------------------------------------------------

  /** Selection distributes over concatenation, so it keeps document order. */
  lemma {:induction false} DataRowsAppend(a: seq<Row>, b: seq<Row>)
    ensures DataRows(a + b) == DataRows(a) + DataRows(b)
    decreases |a|
  {
    if a != [] {
      var head := if IsDataRow(a[0]) then [a[0]] else [];
      assert a + b != [] && (a + b)[0] == a[0];
      assert (a + b)[1..] == a[1..] + b;
      calc {
        DataRows(a + b);
        head + DataRows(a[1..] + b);
        { DataRowsAppend(a[1..], b); }
        head + (DataRows(a[1..]) + DataRows(b));
        (head + DataRows(a[1..])) + DataRows(b);
        DataRows(a) + DataRows(b);
      }
    } else {
      assert a + b == b;
    }
  }

  /** The selected rows are exactly the rows that carry the marker. */
  lemma {:induction false} DataRowsMembers(rows: seq<Row>)
    ensures |DataRows(rows)| <= |rows|
    ensures forall r :: r in DataRows(rows) <==> r in rows && IsDataRow(r)
    decreases |rows|
  {
    if rows != [] {
      DataRowsMembers(rows[1..]);
      assert rows == [rows[0]] + rows[1..];
    }
  }

  /** A row without the marker contributes nothing, wherever it stands. */
  lemma UnmarkedRowIgnored(a: seq<Row>, row: Row, b: seq<Row>)
    requires !IsDataRow(row)
    ensures DataRows(a + [row] + b) == DataRows(a + b)
  {
    DataRowsAppend(a + [row], b);
    DataRowsAppend(a, [row]);
    DataRowsAppend(a, b);
    assert DataRows([row]) == [] + DataRows([row][1..]);
  }

  // ---------------------------------------------------------------------------
  // Parsing every selected row
  // ---------------------------------------------------------------------------

  /** Collecting a concatenation: the first failure in `a` wins, then the first in `b`. */
  lemma {:induction false} CollectAppend<T, E>(a: seq<Result<T, E>>, b: seq<Result<T, E>>)
    ensures Collect(a + b) ==
      match Collect(a)
      case Err(e) => Err(e)
      case Ok(xs) =>
        match Collect(b)
        case Err(e) => Err(e)
        case Ok(ys) => Ok(xs + ys)
    decreases |a|
  {
    if a != [] {
      assert a + b != [] && (a + b)[0] == a[0];
      assert (a + b)[1..] == a[1..] + b;
      CollectAppend(a[1..], b);
      match a[0]
      case Err(e) =>
      case Ok(x) =>
        match Collect(a[1..])
        case Err(e) =>
        case Ok(xs) =>
          match Collect(b)
          case Err(e) =>
          case Ok(ys) =>
            assert [x] + (xs + ys) == ([x] + xs) + ys;
    } else {
      assert a + b == b;
      match Collect(b)
      case Err(e) =>
      case Ok(ys) => assert [] + ys == ys;
    }
  }

  /** Collecting succeeds iff no element failed; it then keeps every value, in order. */
  lemma {:induction false} CollectSpec<T, E>(rs: seq<Result<T, E>>)
    ensures Collect(rs).Ok? <==> forall k :: 0 <= k < |rs| ==> rs[k].Ok?
    ensures Collect(rs).Ok? ==>
      |Collect(rs).value| == |rs| && forall k :: 0 <= k < |rs| ==> Collect(rs).value[k] == rs[k].value
    decreases |rs|
  {
    if rs != [] {
      CollectSpec(rs[1..]);
      assert forall k :: 1 <= k < |rs| ==> rs[k] == rs[1..][k - 1];
    }
  }

  /** Collecting one more element. */
  lemma CollectSnoc<T, E>(rs: seq<Result<T, E>>, d: Result<T, E>)
    ensures Collect(rs + [d]) ==
      match Collect(rs)
      case Err(e) => Err(e)
      case Ok(xs) =>
        match d
        case Err(e) => Err(e)
        case Ok(x) => Ok(xs + [x])
  {
    CollectAppend(rs, [d]);
    var one := [d];
    assert one != [] && one[0] == d && one[1..] == [];
    assert Collect(one[1..]) == Ok([]);
    match d
    case Err(e) =>
    case Ok(x) =>
      assert Collect(one) == Ok([x] + []);
      assert [x] + [] == [x];
  }

  lemma ParseEachAppend(a: seq<Row>, b: seq<Row>)
    ensures ParseEach(a + b) == ParseEach(a) + ParseEach(b)
  {
  }

  // ---------------------------------------------------------------------------
  // Extraction
  // ---------------------------------------------------------------------------

  /** A page without a results grid fails rather than yielding no records. */
  lemma NoGridIsFailure()
    ensures Extract(None) == Err(NoResultsGrid)
    ensures Extract(Some([])) == Ok([])
  {
  }

  /** Each row parses iff it has at least six cells. */
  lemma ParseEachOk(rows: seq<Row>)
    ensures |ParseEach(rows)| == |rows|
    ensures forall k :: 0 <= k < |rows| ==> (ParseEach(rows)[k].Ok? <==> |rows[k].cellTexts| >= 6)
  {
    forall k | 0 <= k < |rows|
      ensures ParseEach(rows)[k].Ok? <==> |rows[k].cellTexts| >= 6
    {
      ParseRowFields(rows[k].cellTexts);
    }
  }

  /** Extraction from a grid fails iff some marked row has fewer than six cells. */
  lemma ExtractSucceeds(rows: seq<Row>)
    ensures Extract(Some(rows)).Ok?
      <==> forall r :: r in rows && IsDataRow(r) ==> |r.cellTexts| >= 6
  {
    var marked := DataRows(rows);
    var rs := ParseEach(marked);
    DataRowsMembers(rows);
    CollectSpec(rs);
    ParseEachOk(marked);
    if Collect(rs).Ok? {
      forall r | r in rows && IsDataRow(r)
        ensures |r.cellTexts| >= 6
      {
        var k :| 0 <= k < |marked| && marked[k] == r;
        assert rs[k].Ok?;
      }
    } else {
      var k :| 0 <= k < |rs| && !rs[k].Ok?;
      assert marked[k] in marked;
    }
  }

  /** Extraction from a grid yields one record per marked row, in document
      order, each the record `parse_result` makes of that row. */
  lemma ExtractRecords(rows: seq<Row>)
    requires Extract(Some(rows)).Ok?
    ensures var cs, marked := Extract(Some(rows)).value, DataRows(rows);
      |cs| == |marked|
      && forall k :: 0 <= k < |marked| ==> ParseRow(marked[k].cellTexts) == Ok(cs[k])
  {
    var rs := ParseEach(DataRows(rows));
    CollectSpec(rs);
  }

  /** Every extracted record has a history numbered 1, 2, 3, ... */
  lemma ExtractedHistoriesContiguous(grid: Option<seq<Row>>)
    requires Extract(grid).Ok?
    ensures forall c, j :: c in Extract(grid).value && 0 <= j < |c.history| ==> c.history[j].position == j + 1
  {
    var rows := grid.value;
    ExtractRecords(rows);
    var cs := Extract(grid).value;
    forall c, j | c in cs && 0 <= j < |c.history|
      ensures c.history[j].position == j + 1
    {
      var k :| 0 <= k < |cs| && cs[k] == c;
      RecordHistoryPositions(DataRows(rows)[k].cellTexts);
    }
  }

  /** One turn of the extraction loop: an unmarked row changes nothing, a
      marked row adds its record or ends the extraction with its failure. */
  lemma ExtractStep(done: seq<Row>, row: Row, results: seq<Company>)
    requires Collect(ParseEach(DataRows(done))) == Ok(results)
    ensures Collect(ParseEach(DataRows(done + [row]))) ==
      if !IsDataRow(row) then Ok(results)
      else match ParseRow(row.cellTexts)
        case Err(e) => Err(e)
        case Ok(c) => Ok(results + [c])
  {
    DataRowsAppend(done, [row]);
    assert DataRows([row]) == (if IsDataRow(row) then [row] else []) + DataRows([]);
    if IsDataRow(row) {
      assert DataRows(done + [row]) == DataRows(done) + [row];
      ParseEachAppend(DataRows(done), [row]);
      assert ParseEach([row]) == [ParseRow(row.cellTexts)];
      CollectSnoc(ParseEach(DataRows(done)), ParseRow(row.cellTexts));
    } else {
      assert DataRows(done + [row]) == DataRows(done);
    }
  }

  /** A failure ends the extraction: whatever rows follow, the result is that failure. */
  lemma ExtractAbort(done: seq<Row>, rest: seq<Row>, e: Failure)
    requires Collect(ParseEach(DataRows(done))) == Err(e)
    ensures Collect(ParseEach(DataRows(done + rest))) == Err(e)
  {
    DataRowsAppend(done, rest);
    ParseEachAppend(DataRows(done), DataRows(rest));
    CollectAppend(ParseEach(DataRows(done)), ParseEach(DataRows(rest)));
  }

  /** The loop of `extract_companies_in_search_results`: walks the grid's rows,
      skips those without `data-ri` and appends the record of each other row;
      an exception from `parse_result` ends the extraction. */
  method ExtractCompanies(grid: Option<seq<Row>>) returns (r: Result<seq<Company>, Failure>)
    ensures r == Extract(grid)
  {
    if grid.None? {
      return Err(NoResultsGrid);
    }
    var rows := grid.value;
    var results: seq<Company> := [];
    var k := 0;
    while k < |rows|
      invariant 0 <= k <= |rows|
      invariant Collect(ParseEach(DataRows(rows[..k]))) == Ok(results)
    {
      var row := rows[k];
      assert rows[..k + 1] == rows[..k] + [row];
      ExtractStep(rows[..k], row, results);
      if row.dataRi.Some? {
        var d := ParseResult(row.cellTexts);
        if d.Err? {
          assert rows == rows[..k + 1] + rows[k + 1..];
          ExtractAbort(rows[..k + 1], rows[k + 1..], d.error);
          return Err(d.error);
        }
        results := results + [d.value];
      }
      k := k + 1;
    }
    assert rows[..k] == rows;
    r := Ok(results);
  }
}
