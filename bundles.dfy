/**
  Bundle-number assignment (`generate_bundle_numbers`).

  Every distinct non-empty address of a batch gets a bundle number
  `"re" + timeStr + f"{k:02d}"`, where `timeStr` is the batch time
  formatted `YYYYMMDDHHMM` (read once from the clock, here a parameter)
  and `k` is the address's 1-based position among the distinct addresses
  in order of first appearance.
 */
module Bundles {
  import opened Wrappers
  import opened Strings
  import opened Orders

  // ---------------------------------------------------------------------
  // Bundle numbers
  // ---------------------------------------------------------------------

  /** The prefix every bundle number of a batch shares. */
  function BatchPrefix(timeStr: string): string {
    "re" + timeStr
  }

  /** The bundle number of the `k`-th distinct address of the batch stamped `timeStr`. */
  function BundleNumber(timeStr: string, k: nat): string {
    BatchPrefix(timeStr) + Pad2(k)
  }

  /** Reads the sequence index back out of a bundle number of the batch `timeStr`. */
  function BundleIndex(timeStr: string, b: string): Option<nat> {
    var p := BatchPrefix(timeStr);
    if p <= b && IsDigits(b[|p|..]) then Some(DecimalValue(b[|p|..])) else None
  }

  lemma BundleNumberRoundTrip(timeStr: string, k: nat)
    ensures BundleIndex(timeStr, BundleNumber(timeStr, k)) == Some(k)
  {
    var p := BatchPrefix(timeStr);
    var b := BundleNumber(timeStr, k);
    assert b[..|p|] == p;
    assert b[|p|..] == Pad2(k);
    Pad2RoundTrip(k);
  }

  /** Two positions of one batch never share a bundle number. */
  lemma BundleNumberInjective(timeStr: string, j: nat, k: nat)
    requires BundleNumber(timeStr, j) == BundleNumber(timeStr, k)
    ensures j == k
  {
    BundleNumberRoundTrip(timeStr, j);
    BundleNumberRoundTrip(timeStr, k);
  }

  /** Below 100 addresses a bundle number is the prefix, the 12-character stamp and two digits. */
  lemma BundleNumberLength(timeStr: string, k: nat)
    ensures |BundleNumber(timeStr, k)| >= |timeStr| + 4
    ensures |BundleNumber(timeStr, k)| == |timeStr| + 4 <==> k < 100
  {
    Pad2Width(k);
  }

  // ---------------------------------------------------------------------
  // Distinct addresses in order of first appearance
  // ---------------------------------------------------------------------

  predicate NoDuplicates(s: seq<string>) {
    forall i, j :: 0 <= i < j < |s| ==> s[i] != s[j]
  }

  /** `rows['주소'].dropna().unique()`: the non-empty addresses, each once, in order of first appearance. */
  function DistinctAddresses(rows: seq<InputRow>): seq<string>
    decreases |rows|
  {
    if rows == [] then []
    else
      var u := DistinctAddresses(rows[..|rows| - 1]);
      match rows[|rows| - 1].address
      case None => u
      case Some(a) => if a in u then u else u + [a]
  }

  /** The position of the first row whose address is `a`, or `|rows|` when there is none. */
  function FirstIndex(rows: seq<InputRow>, a: string): nat
    decreases |rows|
  {
    if rows == [] then 0
    else if rows[0].address == Some(a) then 0
    else 1 + FirstIndex(rows[1..], a)
  }

  lemma {:induction false} FirstIndexSpec(rows: seq<InputRow>, a: string)
    ensures FirstIndex(rows, a) <= |rows|
    ensures FirstIndex(rows, a) < |rows| <==> a in Addresses(rows)
    ensures FirstIndex(rows, a) < |rows| ==> rows[FirstIndex(rows, a)].address == Some(a)
    ensures forall i :: 0 <= i < FirstIndex(rows, a) && i < |rows| ==> rows[i].address != Some(a)
    decreases |rows|
  {
    if rows != [] && rows[0].address != Some(a) {
      var t := rows[1..];
      FirstIndexSpec(t, a);
      if a in Addresses(rows) {
        var i :| 0 <= i < |rows| && rows[i].address == Some(a);
        assert t[i - 1] == rows[i];
      }
      if a in Addresses(t) {
        var i :| 0 <= i < |t| && t[i].address == Some(a);
        assert rows[i + 1] == t[i];
      }
      forall i | 0 < i < FirstIndex(rows, a) && i < |rows|
        ensures rows[i].address != Some(a)
      {
        assert rows[i] == t[i - 1];
      }
    }
  }

  /** Appending a row does not move the first appearance of an address already present. */
  lemma {:induction false} FirstIndexSnoc(p: seq<InputRow>, r: InputRow, a: string)
    ensures a in Addresses(p) ==> FirstIndex(p + [r], a) == FirstIndex(p, a)
    ensures a !in Addresses(p) && r.address == Some(a) ==> FirstIndex(p + [r], a) == |p|
    decreases |p|
  {
    if p != [] {
      assert (p + [r])[1..] == p[1..] + [r];
      FirstIndexSnoc(p[1..], r, a);
      if p[0].address != Some(a) {
        if a in Addresses(p) {
          var i :| 0 <= i < |p| && p[i].address == Some(a);
          assert p[1..][i - 1] == p[i];
        }
        if a in Addresses(p[1..]) {
          var i :| 0 <= i < |p[1..]| && p[1..][i].address == Some(a);
          assert p[i + 1] == p[1..][i];
        }
      }
    } else {
      assert p + [r] == [r];
    }
  }

  lemma AddressesSnoc(p: seq<InputRow>, r: InputRow)
    ensures Addresses(p + [r]) == Addresses(p) + (if r.address.Some? then {r.address.value} else {})
  {
    var q := p + [r];
    forall a | a in Addresses(p) ensures a in Addresses(q) {
      var i :| 0 <= i < |p| && p[i].address == Some(a);
      assert q[i] == p[i];
    }
    if r.address.Some? {
      assert q[|p|] == r;
    }
  }

  /**
    `DistinctAddresses` lists exactly the non-empty addresses of the rows,
    none twice, ordered by where each first appears.
   */
  lemma {:induction false} DistinctAddressesSpec(rows: seq<InputRow>)
    ensures NoDuplicates(DistinctAddresses(rows))
    ensures forall a :: a in DistinctAddresses(rows) <==> a in Addresses(rows)
    ensures forall j, k :: 0 <= j < k < |DistinctAddresses(rows)| ==>
              FirstIndex(rows, DistinctAddresses(rows)[j]) < FirstIndex(rows, DistinctAddresses(rows)[k])
    decreases |rows|
  {
    if rows != [] {
      var p := rows[..|rows| - 1];
      var r := rows[|rows| - 1];
      assert rows == p + [r];
      var u := DistinctAddresses(p);
      DistinctAddressesSpec(p);
      AddressesSnoc(p, r);
      forall a | a in u
        ensures FirstIndex(rows, a) == FirstIndex(p, a) < |p|
      {
        FirstIndexSnoc(p, r, a);
        FirstIndexSpec(p, a);
      }
      if r.address.Some? && r.address.value !in u {
        FirstIndexSnoc(p, r, r.address.value);
      }
    }
  }

  // ---------------------------------------------------------------------
  // The address-to-bundle-number map
  // ---------------------------------------------------------------------

  /** Numbers the addresses of `u` in order: `u[k]` to `BundleNumber(timeStr, k + 1)`, a later duplicate overriding. */
  function Numbering(timeStr: string, u: seq<string>): map<string, string>
    decreases |u|
  {
    if u == [] then map[]
    else Numbering(timeStr, u[..|u| - 1])[u[|u| - 1] := BundleNumber(timeStr, |u|)]
  }

  /** The numbering has the addresses of `u` as its keys, and no other. */
  lemma {:induction false} NumberingKeys(timeStr: string, u: seq<string>)
    ensures forall a :: a in Numbering(timeStr, u) <==> a in u
    decreases |u|
  {
    if u != [] {
      var n := |u| - 1;
      var p := u[..n];
      assert u == p + [u[n]];
      NumberingKeys(timeStr, p);
    }
  }

  /** Without duplicates, the numbering gives `u[k]` the bundle number of position `k + 1`. */
  lemma {:induction false} NumberingValues(timeStr: string, u: seq<string>)
    requires NoDuplicates(u)
    ensures forall k :: 0 <= k < |u| ==>
              u[k] in Numbering(timeStr, u) && Numbering(timeStr, u)[u[k]] == BundleNumber(timeStr, k + 1)
    decreases |u|
  {
    if u != [] {
      var n := |u| - 1;
      var p, x := u[..n], u[n];
      assert NoDuplicates(p) by {
        forall i, j | 0 <= i < j < |p| ensures p[i] != p[j] { assert p[i] == u[i] && p[j] == u[j]; }
      }
      NumberingValues(timeStr, p);
      var m := Numbering(timeStr, p);
      var mu := m[x := BundleNumber(timeStr, |u|)];
      assert Numbering(timeStr, u) == mu;
      forall k | 0 <= k < |u| ensures u[k] in mu && mu[u[k]] == BundleNumber(timeStr, k + 1) {
        if k < n {
          assert u[k] == p[k];
          assert u[k] != x;
          assert p[k] in m && m[p[k]] == BundleNumber(timeStr, k + 1);
        }
      }
    }
  }

  /** The map `generate_bundle_numbers` returns: the k-th distinct address (from 1) to `BundleNumber(timeStr, k)`. */
  function BundleMap(timeStr: string, rows: seq<InputRow>): map<string, string> {
    Numbering(timeStr, DistinctAddresses(rows))
  }

  /** The map has one entry for each distinct non-empty address and no other; empty addresses are no keys. */
  lemma BundleMapKeys(timeStr: string, rows: seq<InputRow>)
    ensures BundleMap(timeStr, rows).Keys == Addresses(rows)
  {
    DistinctAddressesSpec(rows);
    NumberingKeys(timeStr, DistinctAddresses(rows));
    NumberingValues(timeStr, DistinctAddresses(rows));
  }

  /** The k-th distinct address in order of first appearance (0-based here) gets the suffix `k + 1`. */
  lemma BundleMapAt(timeStr: string, rows: seq<InputRow>, k: nat)
    requires k < |DistinctAddresses(rows)|
    ensures DistinctAddresses(rows)[k] in BundleMap(timeStr, rows)
    ensures BundleMap(timeStr, rows)[DistinctAddresses(rows)[k]] == BundleNumber(timeStr, k + 1)
  {
    DistinctAddressesSpec(rows);
    NumberingKeys(timeStr, DistinctAddresses(rows));
    NumberingValues(timeStr, DistinctAddresses(rows));
  }

  /** Every bundle number of a batch is `BundleNumber(timeStr, k)` for one position `k` between 1 and the number of addresses. */
  lemma BundleMapValues(timeStr: string, rows: seq<InputRow>, a: string)
    requires a in BundleMap(timeStr, rows)
    ensures BatchPrefix(timeStr) <= BundleMap(timeStr, rows)[a]
    ensures BundleIndex(timeStr, BundleMap(timeStr, rows)[a]).Some?
    ensures 1 <= BundleIndex(timeStr, BundleMap(timeStr, rows)[a]).value <= |DistinctAddresses(rows)|
  {
    var k := BundleMapIndex(timeStr, rows, a);
    BundleNumberRoundTrip(timeStr, k + 1);
  }

  /** Every key of the map is some distinct address `u[k]`, and its value is the bundle number of position `k + 1`. */
  lemma BundleMapIndex(timeStr: string, rows: seq<InputRow>, a: string) returns (k: nat)
    requires a in BundleMap(timeStr, rows)
    ensures k < |DistinctAddresses(rows)| && DistinctAddresses(rows)[k] == a
    ensures BundleMap(timeStr, rows)[a] == BundleNumber(timeStr, k + 1)
  {
    var u := DistinctAddresses(rows);
    DistinctAddressesSpec(rows);
    NumberingKeys(timeStr, u);
    NumberingValues(timeStr, u);
    assert a in u;
    k :| 0 <= k < |u| && u[k] == a;
  }

  /** Distinct addresses get distinct bundle numbers. */
  lemma BundleMapInjective(timeStr: string, rows: seq<InputRow>, a: string, b: string)
    requires a in BundleMap(timeStr, rows) && b in BundleMap(timeStr, rows)
    requires BundleMap(timeStr, rows)[a] == BundleMap(timeStr, rows)[b]
    ensures a == b
  {
    var j := BundleMapIndex(timeStr, rows, a);
    var k := BundleMapIndex(timeStr, rows, b);
    BundleNumberInjective(timeStr, j + 1, k + 1);
  }

  /**
    `generate_bundle_numbers(df)`: walks the distinct addresses in order of
    first appearance and stores `"re" + timeStr + f"{i:02d}"` for the i-th.
   */
  method GenerateBundleNumbers(rows: seq<InputRow>, timeStr: string) returns (bundleNumbers: map<string, string>)
    ensures bundleNumbers == BundleMap(timeStr, rows)
    ensures bundleNumbers.Keys == Addresses(rows)
  {
    var uniqueAddresses := DistinctAddresses(rows);
    bundleNumbers := map[];
    for i := 0 to |uniqueAddresses|
      invariant bundleNumbers == Numbering(timeStr, uniqueAddresses[..i])
    {
      assert uniqueAddresses[..i + 1][..i] == uniqueAddresses[..i];
      bundleNumbers := bundleNumbers[uniqueAddresses[i] := BundleNumber(timeStr, i + 1)];
    }
    assert uniqueAddresses[..|uniqueAddresses|] == uniqueAddresses;
    BundleMapKeys(timeStr, rows);
  }
}
