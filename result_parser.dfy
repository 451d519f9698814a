/** `parse_result`: one row of cell texts becomes a company record. Cells 1 to 5
    hold court, name, city, status and documents; from cell 8 on, in steps of
    three, a name cell and a city cell both labelled "<n>.) " make up one
    history entry, until the first pair that is missing or unlabelled. */
module ResultParser {
  import opened Outcomes
  import opened Text
  import opened Records

  /** Index of the first history name cell. */
  const HistoryStart: nat := 8

  /** The status text that makes a company active. The source compares with
      `("aktuell" or "currently registered")`, which Python evaluates to
      "aktuell" alone. */
  const ActiveStatus: string := "aktuell"

  /** The label "<n>.) " that opens both cells of history entry n: decimal
      digits followed by ".) "; `LabelDigits` says which digits. */
  function Label(n: nat): (r: string)
    ensures |r| >= 4 && r[|r| - 3..] == ".) "
    ensures forall k :: 0 <= k < |r| - 3 ==> IsDigit(r[k])
  {
    NatToStringRoundTrip(n);
    NatToString(n) + ".) "
  }

  /** The digits of the label are the decimal rendering of n, without
      leading zeros: the label of position 10 is "10.) ", never "010.) ". */
  lemma LabelDigits(n: nat)
    ensures DecimalValue(Label(n)[..|Label(n)| - 3]) == n
    ensures |Label(n)| == 4 || Label(n)[0] != '0'
  {
    NatToStringRoundTrip(n);
    NatToStringNoLeadingZero(n);
    assert Label(n)[..|Label(n)| - 3] == NatToString(n);
  }

  /** Labels of different positions differ, so a label names its position. */
  lemma LabelInjective(m: nat, n: nat)
    requires Label(m) == Label(n)
    ensures m == n
  {
    assert NatToString(m) == Label(m)[..|Label(m)| - 3];
    assert NatToString(n) == Label(n)[..|Label(n)| - 3];
    NatToStringInjective(m, n);
  }

  /** The trimmed texts of the cells of a row. */
  function StripCells(raw: seq<string>): seq<string> {
    seq(|raw|, k requires 0 <= k < |raw| => Strip(raw[k]))
  }

  // ---------------------------------------------------------------------------
  // The history sub-list
  // ---------------------------------------------------------------------------

  /** The history read by the loop from cell `i` on, where `n` is the running
      position: the loop's body taken as a recursive function. */
  function HistoryFrom(cells: seq<string>, i: nat, n: nat): seq<HistoryEntry>
    decreases |cells| - i
  {
    if i >= |cells| then []
    else
      var prefix := Label(n);
      if !StartsWith(cells[i], prefix) || i + 1 == |cells| || !StartsWith(cells[i + 1], prefix) then []
      else
        [HistoryEntry(n, RemoveAll(cells[i], prefix), RemoveAll(cells[i + 1], prefix))]
        + HistoryFrom(cells, i + 3, n + 1)
  }

  /** The history of a row of trimmed cells. */
  function History(cells: seq<string>): seq<HistoryEntry> {
    HistoryFrom(cells, HistoryStart, 1)
  }

  /** History pair j (counted from 0): name cell 8+3j and city cell 9+3j are
      both present and both start with the label of position j+1. */
  predicate PairMatches(cells: seq<string>, j: nat) {
    9 + 3 * j < |cells|
    && StartsWith(cells[8 + 3 * j], Label(j + 1))
    && StartsWith(cells[9 + 3 * j], Label(j + 1))
  }

  /** The entry pair j stands for: position j+1, and both cell texts with every
      occurrence of the label removed. */
  function EntryAt(cells: seq<string>, j: nat): HistoryEntry
    requires 9 + 3 * j < |cells|
  {
    var prefix := Label(j + 1);
    HistoryEntry(j + 1, RemoveAll(cells[8 + 3 * j], prefix), RemoveAll(cells[9 + 3 * j], prefix))
  }

  /** One step of the loop, in terms of pairs: from pair m on, the history is
      empty unless pair m matches, and then it is pair m's entry followed by
      the history from pair m+1 on. */
  lemma HistoryFromStep(cells: seq<string>, m: nat)
    ensures HistoryFrom(cells, 8 + 3 * m, m + 1)
      == if PairMatches(cells, m)
         then [EntryAt(cells, m)] + HistoryFrom(cells, 8 + 3 * (m + 1), m + 2)
         else []
  {
  }

  lemma {:induction false} HistoryFromEntry(cells: seq<string>, m: nat, j: nat)
    requires j < |HistoryFrom(cells, 8 + 3 * m, m + 1)|
    ensures PairMatches(cells, m + j)
    ensures HistoryFrom(cells, 8 + 3 * m, m + 1)[j] == EntryAt(cells, m + j)
    decreases j
  {
    HistoryFromStep(cells, m);
    if j > 0 {
      HistoryFromEntry(cells, m + 1, j - 1);
    }
  }

  lemma {:induction false} HistoryFromEnd(cells: seq<string>, m: nat)
    ensures !PairMatches(cells, m + |HistoryFrom(cells, 8 + 3 * m, m + 1)|)
    decreases |cells| - 3 * m
  {
    HistoryFromStep(cells, m);
    if PairMatches(cells, m) {
      HistoryFromEnd(cells, m + 1);
    }
  }

  /** The history is exactly the entries of the leading run of matching pairs:
      every entry j comes from pair j (cells 8+3j and 9+3j) and has position
      j+1, and the pair right after the last entry does not match. */
  lemma HistoryCharacterization(cells: seq<string>)
    ensures var h := History(cells);
      (forall j :: 0 <= j < |h| ==> PairMatches(cells, j) && h[j] == EntryAt(cells, j))
      && !PairMatches(cells, |h|)
  {
    var h := History(cells);
    forall j | 0 <= j < |h|
      ensures PairMatches(cells, j) && h[j] == EntryAt(cells, j)
    {
      HistoryFromEntry(cells, 0, j);
    }
    HistoryFromEnd(cells, 0);
  }

  /** Positions are contiguous from 1. */
  lemma HistoryPositions(cells: seq<string>)
    ensures forall j :: 0 <= j < |History(cells)| ==> History(cells)[j].position == j + 1
  {
    HistoryCharacterization(cells);
  }

  /** k entries need at least 3k+7 cells; a row of at most 9 cells has no history. */
  lemma HistoryLength(cells: seq<string>)
    ensures |History(cells)| > 0 ==> 3 * |History(cells)| + 7 <= |cells|
    ensures |cells| <= 9 ==> History(cells) == []
  {
    HistoryCharacterization(cells);
    var h := History(cells);
    if |h| > 0 {
      assert PairMatches(cells, |h| - 1);
    }
  }

  /** The length of the history is the index of the first pair that does not
      match, and no other number: parsing stops there and never skips ahead,
      whatever later cells carry. */
  lemma HistoryStopsAtFirstMismatch(cells: seq<string>, k: nat)
    ensures |History(cells)| == k
      <==> (forall j :: 0 <= j < k ==> PairMatches(cells, j)) && !PairMatches(cells, k)
  {
    HistoryCharacterization(cells);
  }

  /** A pair that does not match bounds the history, even when later pairs match. */
  lemma HistoryNeverSkips(cells: seq<string>, j: nat)
    requires !PairMatches(cells, j)
    ensures |History(cells)| <= j
  {
    HistoryCharacterization(cells);
  }

  /** The cell after each city cell (10+3j) and the cells before 8 are never
      read: rows of the same length that agree on the name and city cells of
      every pair have the same history. */
  lemma HistoryReadsOnlyPairCells(c: seq<string>, d: seq<string>)
    requires |c| == |d|
    requires forall p :: 8 <= p < |c| && (p - 8) % 3 != 2 ==> c[p] == d[p]
    ensures History(c) == History(d)
  {
    HistoryCharacterization(c);
    HistoryCharacterization(d);
    var k := |History(c)|;
    forall j | 0 <= j < k
      ensures PairMatches(d, j) && EntryAt(c, j) == EntryAt(d, j)
    {
      assert PairMatches(c, j);
      assert (8 + 3 * j - 8) % 3 == 0 && (9 + 3 * j - 8) % 3 == 1;
      assert c[8 + 3 * j] == d[8 + 3 * j] && c[9 + 3 * j] == d[9 + 3 * j];
    }
    assert !PairMatches(d, k) by {
      if 9 + 3 * k < |c| {
        assert (8 + 3 * k - 8) % 3 == 0 && (9 + 3 * k - 8) % 3 == 1;
        assert c[8 + 3 * k] == d[8 + 3 * k] && c[9 + 3 * k] == d[9 + 3 * k];
      }
    }
    HistoryStopsAtFirstMismatch(d, k);
  }

  // ---------------------------------------------------------------------------
  // The record
  // ---------------------------------------------------------------------------

  /** The index whose access raises IndexError in a row of `count` < 6 cells:
      the dictionary reads cells 1 to 5 in order. */
  function MissingIndex(count: nat): nat
    requires count < 6
  {
    if count == 0 then 1 else count
  }

  /** `parse_result` on a row whose cell texts are `raw`. */
  function ParseRow(raw: seq<string>): Result<Company, Failure> {
    var cells := StripCells(raw);
    if |cells| < 6 then Err(CellIndexOutOfRange(MissingIndex(|cells|)))
    else Ok(Company(cells[1], cells[2], cells[3], cells[4] == ActiveStatus, cells[5], History(cells)))
  }

  /** A row parses iff it has at least six cells; a shorter row fails at the
      first of cells 1..5 it lacks. Court, name, city and documents are the
      trimmed cells 1, 2, 3 and 5, and the record is active iff cell 4 is
      exactly "aktuell". */
  lemma ParseRowFields(raw: seq<string>)
    ensures ParseRow(raw).Ok? <==> |raw| >= 6
    ensures |raw| < 6 ==> ParseRow(raw) == Err(CellIndexOutOfRange(if |raw| == 0 then 1 else |raw|))
    ensures |raw| >= 6 ==>
      var c := ParseRow(raw).value;
      c.court == Strip(raw[1]) && c.name == Strip(raw[2]) && c.city == Strip(raw[3])
      && c.documents == Strip(raw[5]) && (c.active <==> Strip(raw[4]) == "aktuell")
      && c.history == History(StripCells(raw))
  {
  }

  /** The history of a parsed record is numbered 1, 2, 3, ... */
  lemma RecordHistoryPositions(raw: seq<string>)
    requires ParseRow(raw).Ok?
    ensures forall j :: 0 <= j < |ParseRow(raw).value.history| ==> ParseRow(raw).value.history[j].position == j + 1
  {
    HistoryPositions(StripCells(raw));
  }

  /** The English status "currently registered" does not make a record active. */
  lemma ActiveOnlyForAktuell(raw: seq<string>)
    requires |raw| >= 6
    ensures Strip(raw[4]) == "currently registered" ==> !ParseRow(raw).value.active
    ensures Strip(raw[4]) == "inaktiv" ==> !ParseRow(raw).value.active
    ensures Strip(raw[4]) == "aktuell" ==> ParseRow(raw).value.active
  {
  }

  /** The cells of a row that `parse_result` reads: court to documents, and the
      name and city cells of the history pairs. */
  predicate IsReadCell(p: int) {
    (1 <= p <= 5) || (p >= HistoryStart && (p - HistoryStart) % 3 != 2)
  }

  /** Cells 0, 6, 7 and 10+3j do not influence the record. */
  lemma ParseRowReadsOnly(a: seq<string>, b: seq<string>)
    requires |a| == |b|
    requires forall p :: 0 <= p < |a| && IsReadCell(p) ==> Strip(a[p]) == Strip(b[p])
    ensures ParseRow(a) == ParseRow(b)
  {
    var c, d := StripCells(a), StripCells(b);
    assert forall p :: 8 <= p < |c| && (p - 8) % 3 != 2 ==> c[p] == d[p] by {
      forall p | 8 <= p < |c| && (p - 8) % 3 != 2 ensures c[p] == d[p] {
        assert IsReadCell(p);
      }
    }
    HistoryReadsOnlyPairCells(c, d);
    if |a| >= 6 {
      assert IsReadCell(1) && IsReadCell(2) && IsReadCell(3) && IsReadCell(4) && IsReadCell(5);
    }
  }

  /** Each name and city loses every occurrence of the label, not only the
      leading one: "1.) A 1.) B" becomes "A B". */
  lemma LabelRemovedEverywhere()
    ensures RemoveAll("1.) A 1.) B", Label(1)) == "A B"
  {
    assert Label(1) == "1.) ";
    var p := "1.) ";
    assert StartsWith("1.) A 1.) B", p);
    assert "1.) A 1.) B"[|p|..] == "A 1.) B";
    assert "A 1.) B"[..|p|] != p by { assert "A 1.) B"[0] != p[0]; }
    assert "A 1.) B"[1..] == " 1.) B";
    assert " 1.) B"[..|p|] != p by { assert " 1.) B"[0] != p[0]; }
    assert " 1.) B"[1..] == "1.) B";
    assert StartsWith("1.) B", p);
    assert "1.) B"[|p|..] == "B";
  }

  /** A row whose cell texts carry no whitespace at either end is its own
      trimmed row. */
  lemma TrimmedRow(raw: seq<string>)
    requires forall k :: 0 <= k < |raw| ==> raw[k] == [] || (!IsSpace(raw[k][0]) && !IsSpace(raw[k][|raw[k]| - 1]))
    ensures StripCells(raw) == raw
  {
    forall k | 0 <= k < |raw|
      ensures StripCells(raw)[k] == raw[k]
    {
      StripTrimmed(raw[k]);
    }
  }

  /** The example row of the examples below: a current company with one
      history pair whose city cell is `city`. */
  function ExampleRow(city: string): seq<string> {
    ["", "CourtA", "Name1", "CityX", "aktuell", "docs", "", "", "1.) OldName", city]
  }

  lemma ExampleRowTrimmed(city: string)
    requires city == "1.) OldCity" || city == "OldCity"
    ensures StripCells(ExampleRow(city)) == ExampleRow(city)
  {
    TrimmedRow(ExampleRow(city));
  }

  /** The history of the example row with a labelled city cell: one entry. */
  lemma OneEntryHistory()
    ensures History(ExampleRow("1.) OldCity")) == [HistoryEntry(1, "OldName", "OldCity")]
  {
    var cells := ExampleRow("1.) OldCity");
    var p := Label(1);
    assert p == "1.) ";
    assert cells[8] == p + "OldName" && cells[9] == p + "OldCity";
    assert PairMatches(cells, 0) by {
      assert cells[8][..|p|] == p && cells[9][..|p|] == p;
    }
    NoOccurrenceWithoutFirstChar("OldName", p);
    NoOccurrenceWithoutFirstChar("OldCity", p);
    RemoveAllOfLeadingOnly(p, "OldName");
    RemoveAllOfLeadingOnly(p, "OldCity");
    assert EntryAt(cells, 0) == HistoryEntry(1, "OldName", "OldCity");
    HistoryFromStep(cells, 0);
    HistoryFromStep(cells, 1);
  }

  /** A row with one labelled pair parses into a record with one history entry. */
  lemma OneEntryRow()
    ensures ParseRow(ExampleRow("1.) OldCity"))
      == Ok(Company("CourtA", "Name1", "CityX", true, "docs", [HistoryEntry(1, "OldName", "OldCity")]))
  {
    ExampleRowTrimmed("1.) OldCity");
    OneEntryHistory();
  }

  /** The history of the example row with an unlabelled city cell: empty. */
  lemma UnlabelledCityHistory()
    ensures History(ExampleRow("OldCity")) == []
  {
    var cells := ExampleRow("OldCity");
    assert Label(1) == "1.) ";
    assert !StartsWith(cells[9], Label(1)) by {
      assert cells[9][0] != Label(1)[0];
    }
    HistoryFromStep(cells, 0);
  }

  /** Without the label on the city cell the record has no history, even
      though the name cell is labelled. */
  lemma UnlabelledCityRow()
    ensures ParseRow(ExampleRow("OldCity")) == Ok(Company("CourtA", "Name1", "CityX", true, "docs", []))
  {
    ExampleRowTrimmed("OldCity");
    UnlabelledCityHistory();
  }

  // ---------------------------------------------------------------------------
  // parse_result, step by step
  // ---------------------------------------------------------------------------

  /** The loop of `parse_result` that collects the trimmed cell texts. */
  method TrimCells(raw: seq<string>) returns (cells: seq<string>)
    ensures cells == StripCells(raw)
  {
    cells := [];
    var k := 0;
    while k < |raw|
      invariant 0 <= k <= |raw|
      invariant |cells| == k
      invariant forall j :: 0 <= j < k ==> cells[j] == Strip(raw[j])
    {
      cells := cells + [Strip(raw[k])];
      k := k + 1;
    }
    assert forall j :: 0 <= j < |raw| ==> cells[j] == StripCells(raw)[j];
  }

  /** The loop of `parse_result` that walks the history pairs from cell 8 in
      steps of three and leaves at the first pair that does not match. */
  method ReadHistory(cells: seq<string>) returns (history: seq<HistoryEntry>)
    ensures history == History(cells)
  {
    history := [];
    var i := HistoryStart;
    var n := 1;
    while i < |cells|
      invariant history + HistoryFrom(cells, i, n) == History(cells)
      decreases |cells| - i
    {
      var prefix := Label(n);
      if !StartsWith(cells[i], prefix) {
        break;
      }
      if i + 1 == |cells| {
        break;
      }
      if !StartsWith(cells[i + 1], prefix) {
        break;
      }
      var name := RemoveAll(cells[i], prefix);
      var city := RemoveAll(cells[i + 1], prefix);
      history := history + [HistoryEntry(n, name, city)];
      n := n + 1;
      i := i + 3;
    }
  }

  /** `parse_result`: the fixed fields, then the history. A row with fewer than
      six cells raises at the first of cells 1..5 it lacks. */
  method ParseResult(raw: seq<string>) returns (r: Result<Company, Failure>)
    ensures r == ParseRow(raw)
  {
    var cells := TrimCells(raw);
    if |cells| < 6 {
      return Err(CellIndexOutOfRange(MissingIndex(|cells|)));
    }
    var history := ReadHistory(cells);
    r := Ok(Company(cells[1], cells[2], cells[3], cells[4] == ActiveStatus, cells[5], history));
  }
}
