/**
  The records the converter reads and produces.

  An input row is one line of the uploaded order table; each field it uses
  is a cell that may be empty. A converted row is the intermediate record
  that the template writer lays out on the output sheet.
 */
module Orders {
  import opened Wrappers

  /** A cell of the uploaded table: `None` is an empty cell (pandas reads it as NaN). */
  type Cell = Option<string>

  /** The text pandas gives an empty cell when it is converted with `str()`. */
  const NullText: string := "nan"

  /** `str(cell)`: the text of a cell, `NullText` for an empty one. */
  function CellText(c: Cell): string {
    c.GetOr(NullText)
  }

  /** One row of the uploaded table, by its Korean column headers. */
  datatype InputRow = InputRow(
    claimType: Cell,     // 클레임유형
    itemCode: Cell,      // 품목코드
    totalPayment: Cell,  // 총결제금액
    orderQuantity: Cell, // 주문수량
    ordererName: Cell,   // 주문자명
    contact: Cell,       // 연락처
    postalCode: Cell,    // 우편번호
    address: Cell        // 주소
  )

  /** One row of the converted table (the reshipment form's fields). */
  datatype ConvertedRow = ConvertedRow(
    itemCode: string,         // 품목코드
    price: string,            // 가격
    quantity: string,         // 품목수량
    recipientName: string,    // 받는사람명
    recipientPhone: string,   // 받는사람 전화번호
    recipientPostal: string,  // 받는사람 우편번호 (not yet normalised)
    recipientAddress: string, // 받는사람 주소
    bundleNumber: string,     // 묶음배송번호
    orderDate: string         // 주문일자
  )

  /** The non-empty addresses that occur in `rows`. */
  function Addresses(rows: seq<InputRow>): set<string> {
    set i | 0 <= i < |rows| && rows[i].address.Some? :: rows[i].address.value
  }
}
