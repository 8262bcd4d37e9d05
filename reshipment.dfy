/**
  Row filtering and remapping (`convert_data_to_reshipment`).

  Only rows whose claim type is exactly "교환" (exchange) or "해당없음"
  (not applicable) are kept; each kept row becomes a converted row whose
  fields are copied from fixed input columns, with the bundle number looked
  up by the row's address and the order date supplied by the caller.
 */
module Reshipment {
  import opened Wrappers
  import opened Orders
  import opened Bundles

  /** The claim type of an exchange request. */
  const Exchange: string := "교환"
  /** The claim type of an order with no claim. */
  const NotApplicable: string := "해당없음"

  /** `isin(['교환', '해당없음'])` on the claim type; an empty claim cell is not accepted. */
  predicate IsAccepted(row: InputRow) {
    row.claimType == Some(Exchange) || row.claimType == Some(NotApplicable)
  }

  // ---------------------------------------------------------------------
  // Filtering
  // ---------------------------------------------------------------------

  /** The boolean-mask selection `df[mask]`: the accepted rows in their original order. */
  function Filtered(rows: seq<InputRow>): (kept: seq<InputRow>)
    ensures |kept| <= |rows|
    ensures forall k :: 0 <= k < |kept| ==> IsAccepted(kept[k])
    decreases |rows|
  {
    if rows == [] then []
    else (if IsAccepted(rows[0]) then [rows[0]] else []) + Filtered(rows[1..])
  }

  /** The positions of the accepted rows, in ascending order. */
  function KeptIndices(rows: seq<InputRow>): seq<nat>
    decreases |rows|
  {
    if rows == [] then []
    else
      var p := rows[..|rows| - 1];
      KeptIndices(p) + (if IsAccepted(rows[|rows| - 1]) then [|p|] else [])
  }

  lemma {:induction false} FilteredSnoc(p: seq<InputRow>, r: InputRow)
    ensures Filtered(p + [r]) == Filtered(p) + (if IsAccepted(r) then [r] else [])
    decreases |p|
  {
    var tail: seq<InputRow> := if IsAccepted(r) then [r] else [];
    if p == [] {
      assert p + [r] == [r];
      assert [r][1..] == [];
    } else {
      var q := p + [r];
      var head: seq<InputRow> := if IsAccepted(p[0]) then [p[0]] else [];
      assert q[0] == p[0];
      assert q[1..] == p[1..] + [r];
      FilteredSnoc(p[1..], r);
      calc {
        Filtered(q);
        head + Filtered(p[1..] + [r]);
        head + (Filtered(p[1..]) + tail);
        (head + Filtered(p[1..])) + tail;
        Filtered(p) + tail;
      }
    }
  }

  /**
    A position is kept exactly when its row is accepted, and the kept
    positions are listed in increasing order, so each accepted row is kept
    once and the input order is preserved.
   */
  lemma {:induction false} KeptIndicesSpec(rows: seq<InputRow>)
    ensures forall k :: 0 <= k < |KeptIndices(rows)| ==>
              KeptIndices(rows)[k] < |rows| && IsAccepted(rows[KeptIndices(rows)[k]])
    ensures forall j, k :: 0 <= j < k < |KeptIndices(rows)| ==> KeptIndices(rows)[j] < KeptIndices(rows)[k]
    ensures forall i :: 0 <= i < |rows| && IsAccepted(rows[i]) ==> i in KeptIndices(rows)
    decreases |rows|
  {
    if rows != [] {
      var p := rows[..|rows| - 1];
      var r := rows[|rows| - 1];
      KeptIndicesSpec(p);
      var kp := KeptIndices(p);
      var tail: seq<nat> := if IsAccepted(r) then [|p|] else [];
      var kr := KeptIndices(rows);
      assert kr == kp + tail;
      forall k | 0 <= k < |kr|
        ensures kr[k] < |rows| && IsAccepted(rows[kr[k]])
      {
        if k < |kp| {
          assert kr[k] == kp[k] && rows[kp[k]] == p[kp[k]];
        }
      }
      forall j, k | 0 <= j < k < |kr| ensures kr[j] < kr[k] {
        if k >= |kp| {
          assert kr[j] == kp[j];
        }
      }
      forall i | 0 <= i < |rows| && IsAccepted(rows[i]) ensures i in kr {
        if i < |p| {
          assert p[i] == rows[i];
          var k :| 0 <= k < |kp| && kp[k] == i;
          assert kr[k] == i;
        } else {
          assert kr[|kr| - 1] == i;
        }
      }
    }
  }

  /** The k-th row the filter keeps is the input row at the k-th kept position. */
  lemma {:induction false} FilteredIsKeptRows(rows: seq<InputRow>)
    ensures |Filtered(rows)| == |KeptIndices(rows)|
    ensures forall k :: 0 <= k < |Filtered(rows)| ==>
              KeptIndices(rows)[k] < |rows| && Filtered(rows)[k] == rows[KeptIndices(rows)[k]]
    decreases |rows|
  {
    KeptIndicesSpec(rows);
    if rows != [] {
      var p := rows[..|rows| - 1];
      var r := rows[|rows| - 1];
      assert rows == p + [r];
      FilteredSnoc(p, r);
      FilteredIsKeptRows(p);
      KeptIndicesSpec(p);
      assert forall k :: 0 <= k < |KeptIndices(p)| ==> rows[KeptIndices(p)[k]] == p[KeptIndices(p)[k]];
    }
  }

  /** Nothing survives the filter exactly when no row is accepted. */
  lemma FilteredEmpty(rows: seq<InputRow>)
    ensures Filtered(rows) == [] <==> forall i :: 0 <= i < |rows| ==> !IsAccepted(rows[i])
  {
    FilteredIsKeptRows(rows);
    KeptIndicesSpec(rows);
    if Filtered(rows) != [] {
      assert IsAccepted(rows[KeptIndices(rows)[0]]);
    }
  }

  /** The filter can only drop addresses, never introduce one. */
  lemma FilteredAddresses(rows: seq<InputRow>)
    ensures Addresses(Filtered(rows)) <= Addresses(rows)
  {
    FilteredIsKeptRows(rows);
    var f := Filtered(rows);
    forall a | a in Addresses(f) ensures a in Addresses(rows) {
      var k :| 0 <= k < |f| && f[k].address == Some(a);
      assert rows[KeptIndices(rows)[k]].address == Some(a);
    }
  }

  // ---------------------------------------------------------------------
  // Remapping
  // ---------------------------------------------------------------------

  /** `bundle_numbers.get(str(address), '')`: a number of the map, or the empty default. */
  function BundleOf(bundleNumbers: map<string, string>, row: InputRow): (bundle: string)
    ensures bundle == "" || bundle in bundleNumbers.Values
  {
    var address := CellText(row.address);
    if address in bundleNumbers then bundleNumbers[address] else ""
  }

  /** The converted record of one kept row: fixed source columns, the looked-up bundle number, the supplied date. */
  function ConvertRow(row: InputRow, bundleNumbers: map<string, string>, orderDate: string): ConvertedRow {
    ConvertedRow(
      itemCode := CellText(row.itemCode),
      price := CellText(row.totalPayment),
      quantity := CellText(row.orderQuantity),
      recipientName := CellText(row.ordererName),
      recipientPhone := CellText(row.contact),
      recipientPostal := CellText(row.postalCode),
      recipientAddress := CellText(row.address),
      bundleNumber := BundleOf(bundleNumbers, row),
      orderDate := orderDate
    )
  }

  /**
    The map the conversion uses: the one passed in, or, when none is passed,
    the one generated from the rows that survived the filter.
   */
  function BundlesUsed(bundleNumbers: Option<map<string, string>>, timeStr: string, filtered: seq<InputRow>): map<string, string> {
    match bundleNumbers
    case Some(m) => m
    case None => BundleMap(timeStr, filtered)
  }

  /** What the conversion returns: one converted row per row that survives the filter, in order. */
  function ConvertedRows(rows: seq<InputRow>, bundleNumbers: Option<map<string, string>>,
                         timeStr: string, orderDate: string): seq<ConvertedRow>
  {
    var filtered := Filtered(rows);
    var m := BundlesUsed(bundleNumbers, timeStr, filtered);
    seq(|filtered|, k requires 0 <= k < |filtered| => ConvertRow(filtered[k], m, orderDate))
  }

  /**
    The converted rows correspond one to one, in order, with the accepted
    input rows: the k-th is made from the row at the k-th kept position.
   */
  lemma ConvertedRowsFromKept(rows: seq<InputRow>, bundleNumbers: Option<map<string, string>>,
                              timeStr: string, orderDate: string)
    ensures |ConvertedRows(rows, bundleNumbers, timeStr, orderDate)| == |KeptIndices(rows)|
    ensures forall k :: 0 <= k < |KeptIndices(rows)| ==>
              KeptIndices(rows)[k] < |rows| &&
              ConvertedRows(rows, bundleNumbers, timeStr, orderDate)[k] ==
                ConvertRow(rows[KeptIndices(rows)[k]], BundlesUsed(bundleNumbers, timeStr, Filtered(rows)), orderDate)
  {
    FilteredIsKeptRows(rows);
  }

  /**
    `convert_data_to_reshipment(df, bundle_numbers)`: filters the rows, returns
    nothing when none survive, and otherwise appends one converted row per
    kept row, in order. `timeStr` is the clock reading the bundle numbers are
    generated from when no map is passed; `orderDate` is today's `YYYYMMDD`.
   */
  method ConvertDataToReshipment(rows: seq<InputRow>, bundleNumbers: Option<map<string, string>>,
                                 timeStr: string, orderDate: string)
    returns (converted: seq<ConvertedRow>)
    ensures converted == ConvertedRows(rows, bundleNumbers, timeStr, orderDate)
    ensures converted == [] <==> forall i :: 0 <= i < |rows| ==> !IsAccepted(rows[i])
  {
    FilteredEmpty(rows);
    var filtered := Filtered(rows);
    if |filtered| == 0 {
      return [];
    }
    var m: map<string, string>;
    if bundleNumbers.None? {
      m := GenerateBundleNumbers(filtered, timeStr);
    } else {
      m := bundleNumbers.value;
    }
    converted := [];
    for i := 0 to |filtered|
      invariant |converted| == i
      invariant forall k :: 0 <= k < i ==> converted[k] == ConvertRow(filtered[k], m, orderDate)
    {
      converted := converted + [ConvertRow(filtered[i], m, orderDate)];
    }
  }
}
