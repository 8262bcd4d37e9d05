/**
  The fixed reshipment template (`create_excel_file`).

  Row 1 of the sheet holds the 31 column labels of the downstream import
  format; sheet row `2 + idx` holds the `idx`-th converted row laid out over
  the same 31 columns: seven constants, eight copied fields, the normalised
  postal code, and the empty string in every other column. The model stops
  at the grid of cells; turning the workbook into bytes is left out.
 */
module Template {
  import opened Wrappers
  import opened Strings
  import opened Orders

  const ColumnCount: nat := 31

  /** The labels of row 1, column 1 first; a leading "* " marks a column the import requires. */
  const Headers: seq<string> := [
    "* F/C", "* 주문유형", "* 배송처", "* 고객ID", "판매채널", "* 묶음배송번호", "* 품목코드",
    "품목명", "옵션", "가격", "* 품목수량", "주문자", "* 받는사람명", "주문자 전화번호",
    "* 받는사람 전화번호", "* 받는사람 우편번호", "* 받는사람 주소", "배송메세지", "* 주문일자",
    "상품주문번호", "주문번호(참조)", "주문중개채널(상세)", "박스구분", "상세배송유형",
    "새벽배송 SMS 전송", "새벽배송 현관비밀번호", "위험물 구분", "* 주문중개채널",
    "API 연동용 판매자ID", "* 주문시간", "받는사람 핸드폰"
  ]

  // The values written on every data row, whatever the input.
  const FulfilmentCentre: string := "NS001"  // column 1, * F/C
  const OrderType: string := "7"             // column 2, * 주문유형
  const ShipFrom: string := "17"             // column 3, * 배송처
  const CustomerId: string := "90015746"     // column 4, * 고객ID
  const SalesChannel: string := "NFA"        // column 5, 판매채널
  const BrokerChannel: string := "SELF"      // column 28, * 주문중개채널
  const OrderTime: string := "09:00:00"      // column 30, * 주문시간

  /** The constant a data row carries in column `col` (1-based), if the column has one. */
  function FixedValue(col: int): Option<string> {
    if col == 1 then Some(FulfilmentCentre)
    else if col == 2 then Some(OrderType)
    else if col == 3 then Some(ShipFrom)
    else if col == 4 then Some(CustomerId)
    else if col == 5 then Some(SalesChannel)
    else if col == 28 then Some(BrokerChannel)
    else if col == 30 then Some(OrderTime)
    else None
  }

  /** The columns that carry a field of the converted row. */
  const DataColumns: set<int> := {6, 7, 10, 11, 13, 15, 16, 17, 19}

  /** The columns that are always written as the empty string. */
  predicate IsBlankColumn(col: int) {
    1 <= col <= ColumnCount && col !in DataColumns && FixedValue(col).None?
  }

  // ---------------------------------------------------------------------
  // Postal codes
  // ---------------------------------------------------------------------

  /**
    The postal code written to column 16: stripped of surrounding
    whitespace, a four-character code gets a leading "0", an empty one
    becomes "00000", and any other length is kept as it is.
   */
  function NormalizePostal(s: string): string {
    var code := Strip(s);
    if |code| > 0 && |code| == 4 then "0" + code
    else if |code| == 0 then "00000"
    else code
  }

  /** The written postal code is never empty and has no surrounding whitespace. */
  lemma NormalizePostalTrimmed(s: string)
    ensures |NormalizePostal(s)| > 0
    ensures IsTrimmed(NormalizePostal(s))
  {
    var _, _ := StripSplit(s);
  }

  /**
    A code of four or five characters after stripping comes out with
    five: a four-character one gets a leading "0" whatever its characters,
    a five-character one is kept. When the code is all digits, the result is
    too and denotes the same number, so a code whose leading zero was lost
    is restored.
   */
  lemma NormalizePostalFiveDigits(s: string)
    requires |Strip(s)| == 4 || |Strip(s)| == 5
    ensures |NormalizePostal(s)| == 5
    ensures |Strip(s)| == 4 ==> NormalizePostal(s) == "0" + Strip(s)
    ensures |Strip(s)| == 5 ==> NormalizePostal(s) == Strip(s)
    ensures IsDigits(Strip(s)) ==>
              IsDigits(NormalizePostal(s)) && DecimalValue(NormalizePostal(s)) == DecimalValue(Strip(s))
  {
    if |Strip(s)| == 4 && IsDigits(Strip(s)) {
      LeadingZero(Strip(s));
    }
  }

  /** A text cell that is empty or only whitespace is written as five zeros. */
  lemma NormalizePostalBlank(s: string)
    requires AllSpace(s)
    ensures NormalizePostal(s) == "00000"
  {
    var _, _ := StripSplit(s);
  }

  /** What is not four characters long or empty after stripping is passed through stripped. */
  lemma NormalizePostalOtherLengths(s: string)
    requires |Strip(s)| != 0 && |Strip(s)| != 4
    ensures NormalizePostal(s) == Strip(s)
  {
  }

  /** Only surrounding whitespace is ignored: normalising the stripped code gives the same result. */
  lemma NormalizePostalIgnoresSpace(s: string)
    ensures NormalizePostal(Strip(s)) == NormalizePostal(s)
  {
    StripIdempotent(s);
  }

  /** Normalising a normalised code changes nothing. */
  lemma NormalizePostalIdempotent(s: string)
    ensures NormalizePostal(NormalizePostal(s)) == NormalizePostal(s)
  {
    var r := NormalizePostal(s);
    NormalizePostalTrimmed(s);
    StripTrimmed(r);
  }

  // ---------------------------------------------------------------------
  // Row layout
  // ---------------------------------------------------------------------

  /** The 31 cells of the data row for `row`, column 1 first. */
  function RowCells(row: ConvertedRow): (cells: seq<string>)
    ensures |cells| == ColumnCount
  {
    [ FulfilmentCentre, OrderType, ShipFrom, CustomerId, SalesChannel,
      row.bundleNumber,                  // 6
      row.itemCode,                      // 7
      "", "",
      row.price,                         // 10
      row.quantity,                      // 11
      "",
      row.recipientName,                 // 13
      "",
      row.recipientPhone,                // 15
      NormalizePostal(row.recipientPostal), // 16
      row.recipientAddress,              // 17
      "",
      row.orderDate,                     // 19
      "", "", "", "", "", "", "", "",    // 20-27
      BrokerChannel,                     // 28
      "",
      OrderTime,                         // 30
      "" ]
  }

  /** Reads the converted row back from the data columns of a sheet row. */
  function ReadRow(cells: seq<string>): ConvertedRow
    requires |cells| == ColumnCount
  {
    ConvertedRow(
      itemCode := cells[6], price := cells[9], quantity := cells[10],
      recipientName := cells[12], recipientPhone := cells[14], recipientPostal := cells[15],
      recipientAddress := cells[16], bundleNumber := cells[5], orderDate := cells[18])
  }

  /**
    Every data row carries the seven constants in their columns and the
    empty string in each blank column, whatever its input.
   */
  lemma RowCellsFixedColumns(row: ConvertedRow, col: int)
    requires 1 <= col <= ColumnCount
    ensures FixedValue(col).Some? ==> RowCells(row)[col - 1] == FixedValue(col).value
    ensures IsBlankColumn(col) ==> RowCells(row)[col - 1] == ""
  {
  }

  /** Two data rows can differ only in the data columns. */
  lemma RowCellsDependOnlyOnData(a: ConvertedRow, b: ConvertedRow, col: int)
    requires 1 <= col <= ColumnCount && col !in DataColumns
    ensures RowCells(a)[col - 1] == RowCells(b)[col - 1]
  {
    RowCellsFixedColumns(a, col);
    RowCellsFixedColumns(b, col);
  }

  /** Nothing of a converted row is lost on the sheet except the form of its postal code. */
  lemma RowCellsRoundTrip(row: ConvertedRow)
    ensures ReadRow(RowCells(row)) == row.(recipientPostal := NormalizePostal(row.recipientPostal))
  {
  }

  // ---------------------------------------------------------------------
  // The sheet
  // ---------------------------------------------------------------------

  /** The value `create_excel_file` writes at sheet row `r`, column `c` (both 1-based). */
  function SheetCell(converted: seq<ConvertedRow>, r: int, c: int): string
    requires 1 <= r <= |converted| + 1 && 1 <= c <= ColumnCount
  {
    if r == 1 then Headers[c - 1] else RowCells(converted[r - 2])[c - 1]
  }

  /**
    `cells` holds exactly sheet rows 1 to `rowsDone`, all 31 columns, plus
    columns 1 to `colsDone - 1` of row `rowsDone + 1`, with their values.
   */
  ghost predicate Filled(cells: map<(int, int), string>, converted: seq<ConvertedRow>, rowsDone: int, colsDone: int)
    requires 0 <= rowsDone <= |converted| + 1 && 1 <= colsDone <= ColumnCount + 1
    requires rowsDone == |converted| + 1 ==> colsDone == 1
  {
    && (forall r, c :: (r, c) in cells <==>
          (1 <= r <= rowsDone && 1 <= c <= ColumnCount) || (r == rowsDone + 1 && 1 <= c < colsDone))
    && (forall r, c :: (r, c) in cells ==> cells[(r, c)] == SheetCell(converted, r, c))
  }

  /** Writing the next cell of the row being filled extends what is filled by that cell. */
  lemma FilledStep(cells: map<(int, int), string>, converted: seq<ConvertedRow>, rowsDone: int, col: int)
    requires 0 <= rowsDone <= |converted| && 1 <= col <= ColumnCount
    requires Filled(cells, converted, rowsDone, col)
    ensures Filled(cells[(rowsDone + 1, col) := SheetCell(converted, rowsDone + 1, col)], converted, rowsDone, col + 1)
  {
  }

  /** A row whose 31 columns are all written counts as done. */
  lemma FilledRow(cells: map<(int, int), string>, converted: seq<ConvertedRow>, rowsDone: int)
    requires 0 <= rowsDone <= |converted|
    requires Filled(cells, converted, rowsDone, ColumnCount + 1)
    ensures Filled(cells, converted, rowsDone + 1, 1)
  {
  }

  /** An openpyxl worksheet, reduced to the values of its cells. */
  class Worksheet {
    var cells: map<(int, int), string>

    constructor ()
      ensures cells == map[]
    {
      cells := map[];
    }

    /** `worksheet.cell(row=row, column=column, value=value)`; openpyxl refuses a row or column below 1. */
    method SetCell(row: int, column: int, value: string)
      requires 1 <= row && 1 <= column
      modifies this
      ensures cells == old(cells)[(row, column) := value]
    {
      cells := cells[(row, column) := value];
    }
  }

  /**
    `create_excel_file(converted_df)`, up to the cell grid: the header in
    row 1 and the `idx`-th converted row in row `2 + idx`, 31 columns each,
    and no other cell.
   */
  method CreateExcelFile(converted: seq<ConvertedRow>) returns (grid: map<(int, int), string>)
    ensures forall r, c :: (r, c) in grid <==> 1 <= r <= |converted| + 1 && 1 <= c <= ColumnCount
    ensures forall c :: 1 <= c <= ColumnCount ==> grid[(1, c)] == Headers[c - 1]
    ensures forall r, c :: 2 <= r <= |converted| + 1 && 1 <= c <= ColumnCount ==>
              grid[(r, c)] == RowCells(converted[r - 2])[c - 1]
  {
    var worksheet := new Worksheet();
    for col := 1 to ColumnCount + 1
      invariant Filled(worksheet.cells, converted, 0, col)
    {
      FilledStep(worksheet.cells, converted, 0, col);
      worksheet.SetCell(1, col, Headers[col - 1]);
    }
    FilledRow(worksheet.cells, converted, 0);
    var startRow := 2;
    for idx := 0 to |converted|
      invariant Filled(worksheet.cells, converted, idx + 1, 1)
    {
      var currentRow := startRow + idx;
      var cells := RowCells(converted[idx]);
      for col := 1 to ColumnCount + 1
        invariant Filled(worksheet.cells, converted, idx + 1, col)
      {
        FilledStep(worksheet.cells, converted, idx + 1, col);
        worksheet.SetCell(currentRow, col, cells[col - 1]);
      }
      FilledRow(worksheet.cells, converted, idx + 1);
    }
    grid := worksheet.cells;
  }
}
