/**
  The three stages put together as the upload handler wires them: the
  bundle numbers are generated from the whole uploaded table, the table is
  converted with that map, and the converted rows are laid out on the
  template sheet when there are any.

  The lemmas here are about how bundle numbers group the converted rows,
  under both ways the conversion can get its map: passed in from the whole
  table, or generated from the rows that survive the filter.
 */
module Pipeline {
  import opened Wrappers
  import opened Orders
  import opened Bundles
  import opened Reshipment
  import opened Template
  import opened Strings

  /**
    Converting with a map of the bundle numbers of `source`, where every
    address that survives the filter also occurs in `source`: two converted
    rows with non-empty addresses share a bundle number exactly when they
    share an address, and each such row gets a bundle number of the batch.
   */
  lemma GroupingLaw(rows: seq<InputRow>, source: seq<InputRow>, timeStr: string, j: nat, k: nat)
    requires Addresses(Filtered(rows)) <= Addresses(source)
    requires j < |Filtered(rows)| && k < |Filtered(rows)|
    requires Filtered(rows)[j].address.Some? && Filtered(rows)[k].address.Some?
    ensures BundleOf(BundleMap(timeStr, source), Filtered(rows)[j]) == BundleOf(BundleMap(timeStr, source), Filtered(rows)[k])
            <==> Filtered(rows)[j].address == Filtered(rows)[k].address
    ensures BatchPrefix(timeStr) <= BundleOf(BundleMap(timeStr, source), Filtered(rows)[j])
  {
    var f := Filtered(rows);
    var m := BundleMap(timeStr, source);
    var a, b := f[j].address.value, f[k].address.value;
    assert a in Addresses(f) && b in Addresses(f);
    BundleMapKeys(timeStr, source);
    BundleMapValues(timeStr, source, a);
    if m[a] == m[b] {
      BundleMapInjective(timeStr, source, a, b);
    }
  }

  /** The map the upload handler passes: generated from the whole table, before filtering. */
  function MainBundles(rows: seq<InputRow>, timeStr: string): Option<map<string, string>> {
    Some(BundleMap(timeStr, rows))
  }

  /**
    Under either wiring, two converted rows whose addresses are non-empty
    share a bundle number if and only if they share an address, and each
    carries a bundle number of the batch.
   */
  lemma ConvertedGrouping(rows: seq<InputRow>, fromWholeTable: bool, timeStr: string, orderDate: string, j: nat, k: nat)
    requires j < |Filtered(rows)| && k < |Filtered(rows)|
    requires Filtered(rows)[j].address.Some? && Filtered(rows)[k].address.Some?
    ensures var out := ConvertedRows(rows, if fromWholeTable then MainBundles(rows, timeStr) else None, timeStr, orderDate);
            && (out[j].bundleNumber == out[k].bundleNumber <==> out[j].recipientAddress == out[k].recipientAddress)
            && BatchPrefix(timeStr) <= out[j].bundleNumber
  {
    if fromWholeTable {
      FilteredAddresses(rows);
      GroupingLaw(rows, rows, timeStr, j, k);
    } else {
      GroupingLaw(rows, Filtered(rows), timeStr, j, k);
    }
  }

  /**
    A kept row whose address cell is empty is looked up as the text "nan";
    unless some row of the table used for the map literally has that
    address, it gets no bundle number.
   */
  lemma EmptyAddressNoBundle(rows: seq<InputRow>, source: seq<InputRow>, timeStr: string, orderDate: string, k: nat)
    requires k < |Filtered(rows)| && Filtered(rows)[k].address.None?
    requires NullText !in Addresses(source)
    ensures ConvertRow(Filtered(rows)[k], BundleMap(timeStr, source), orderDate).bundleNumber == ""
    ensures ConvertRow(Filtered(rows)[k], BundleMap(timeStr, source), orderDate).recipientAddress == NullText
  {
    BundleMapKeys(timeStr, source);
  }

  /**
    A kept row whose postal cell is empty: the cell is read as the text
    "nan", which is neither empty nor four characters long after stripping,
    so column 16 of its sheet row carries "nan" and not "00000".
   */
  lemma EmptyPostalWrittenAsNan(row: InputRow, bundleNumbers: map<string, string>, orderDate: string)
    requires row.postalCode.None?
    ensures RowCells(ConvertRow(row, bundleNumbers, orderDate))[15] == NullText
    ensures RowCells(ConvertRow(row, bundleNumbers, orderDate))[15] != "00000"
  {
    StripTrimmed(NullText);
  }

  /** A returned order for "B" ahead of an exchange for "A". */
  const ReturnThenExchange: seq<InputRow> := [
    InputRow(Some("반품"), None, None, None, None, None, None, Some("B")),
    InputRow(Some(Exchange), None, None, None, None, None, None, Some("A"))]

  lemma ReturnThenExchangeSteps()
    ensures Filtered(ReturnThenExchange) == [ReturnThenExchange[1]]
    ensures DistinctAddresses(ReturnThenExchange) == ["B", "A"]
    ensures DistinctAddresses(Filtered(ReturnThenExchange)) == ["A"]
  {
    var rows := ReturnThenExchange;
    assert !IsAccepted(rows[0]) by { assert "반품"[0] != Exchange[0] && "반품"[0] != NotApplicable[0]; }
    assert rows[1..] == [rows[1]] && rows[1..][1..] == [];
    assert Filtered(rows[1..]) == [rows[1]];
    assert rows[..1] == [rows[0]] && rows[..1][..0] == [];
    assert DistinctAddresses(rows[..1]) == ["B"];
    var f := [rows[1]];
    assert f[..0] == [];
  }

  /**
    The two wirings can number the same address differently: behind a
    returned order for "B", the exchange for "A" gets suffix 02 from the
    whole-table map and 01 from the map of the filtered rows.
   */
  lemma WiringsDiffer(timeStr: string, orderDate: string)
    ensures |ConvertedRows(ReturnThenExchange, MainBundles(ReturnThenExchange, timeStr), timeStr, orderDate)| == 1
    ensures |ConvertedRows(ReturnThenExchange, None, timeStr, orderDate)| == 1
    ensures ConvertedRows(ReturnThenExchange, MainBundles(ReturnThenExchange, timeStr), timeStr, orderDate)[0].bundleNumber
            == BundleNumber(timeStr, 2)
    ensures ConvertedRows(ReturnThenExchange, None, timeStr, orderDate)[0].bundleNumber == BundleNumber(timeStr, 1)
    ensures BundleNumber(timeStr, 2) != BundleNumber(timeStr, 1)
  {
    ReturnThenExchangeSteps();
    BundleMapAt(timeStr, ReturnThenExchange, 1);
    BundleMapAt(timeStr, Filtered(ReturnThenExchange), 0);
    BundleNumberRoundTrip(timeStr, 2);
    BundleNumberRoundTrip(timeStr, 1);
  }

  /** An exchange for "Seoul A", a return for "Seoul B" and a no-claim order for "Seoul A". */
  const ThreeRows: seq<InputRow> := [
    InputRow(Some(Exchange), Some("I1"), None, None, None, None, None, Some("Seoul A")),
    InputRow(Some("반품"), Some("I2"), None, None, None, None, None, Some("Seoul B")),
    InputRow(Some(NotApplicable), Some("I3"), None, None, None, None, None, Some("Seoul A"))]

  lemma ThreeRowsSteps()
    ensures Filtered(ThreeRows) == [ThreeRows[0], ThreeRows[2]]
    ensures DistinctAddresses(ThreeRows) == ["Seoul A", "Seoul B"]
  {
    var rows := ThreeRows;
    assert !IsAccepted(rows[1]) by { assert "반품"[0] != Exchange[0] && "반품"[0] != NotApplicable[0]; }
    assert rows[1..] == [rows[1], rows[2]] && rows[1..][1..] == [rows[2]] && rows[1..][1..][1..] == [];
    assert Filtered(rows[1..][1..]) == [rows[2]];
    assert Filtered(rows[1..]) == [rows[2]];
    assert rows[..1] == [rows[0]] && rows[..1][..0] == [];
    assert rows[..2] == [rows[0], rows[1]] && rows[..2][..1] == [rows[0]];
    assert DistinctAddresses(rows[..1]) == ["Seoul A"];
    assert "Seoul A" != "Seoul B" by { assert "Seoul A"[6] != "Seoul B"[6]; }
    assert DistinctAddresses(rows[..2]) == ["Seoul A", "Seoul B"];
  }

  /**
    Of the three rows, the first and the third are converted, in that order,
    and they share the bundle number of the first distinct address.
   */
  lemma ThreeRowScenario(timeStr: string, orderDate: string)
    ensures |ConvertedRows(ThreeRows, MainBundles(ThreeRows, timeStr), timeStr, orderDate)| == 2
    ensures ConvertedRows(ThreeRows, MainBundles(ThreeRows, timeStr), timeStr, orderDate)[0].itemCode == "I1"
    ensures ConvertedRows(ThreeRows, MainBundles(ThreeRows, timeStr), timeStr, orderDate)[1].itemCode == "I3"
    ensures ConvertedRows(ThreeRows, MainBundles(ThreeRows, timeStr), timeStr, orderDate)[0].bundleNumber == BundleNumber(timeStr, 1)
    ensures ConvertedRows(ThreeRows, MainBundles(ThreeRows, timeStr), timeStr, orderDate)[1].bundleNumber == BundleNumber(timeStr, 1)
  {
    ThreeRowsSteps();
    BundleMapAt(timeStr, ThreeRows, 0);
  }

  /**
    The conversion as the upload handler drives it: bundle numbers from the
    whole table, conversion with that map, and the sheet when at least one
    row was converted; `None` stands for the "nothing to convert" warning.
   */
  method ConvertUpload(rows: seq<InputRow>, timeStr: string, orderDate: string)
    returns (sheet: Option<map<(int, int), string>>)
    ensures sheet.None? <==> forall i :: 0 <= i < |rows| ==> !IsAccepted(rows[i])
    ensures sheet.Some? ==>
              var out := ConvertedRows(rows, MainBundles(rows, timeStr), timeStr, orderDate);
              && (forall r, c :: (r, c) in sheet.value <==> 1 <= r <= |out| + 1 && 1 <= c <= ColumnCount)
              && (forall r, c :: (r, c) in sheet.value ==> sheet.value[(r, c)] == SheetCell(out, r, c))
  {
    var bundleNumbers := GenerateBundleNumbers(rows, timeStr);
    var converted := ConvertDataToReshipment(rows, Some(bundleNumbers), timeStr, orderDate);
    if |converted| > 0 {
      var grid := CreateExcelFile(converted);
      sheet := Some(grid);
    } else {
      sheet := None;
    }
  }
}
