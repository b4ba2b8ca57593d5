/** The data provider of the dashboard: one decoded asset record of the
    CoinCap asset list, and its projection into a four-cell display row.
    Strings stand for byte strings: each `char` is one byte, so the byte
    slice `[0..6]` of the source is the first six characters here. */
module Api {

  /** One entry of the `data` array of the upstream JSON envelope.  All
      numeric values stay text; nothing is parsed. */
  datatype CryptoApiData = CryptoApiData(
    id: string,
    symbol: string,
    name: string,
    marketCapUsd: string,
    priceUsd: string,
    changePercent24Hr: string)

  /** The envelope `{ "data": [...] }`. */
  datatype CryptoApiStruct = CryptoApiStruct(data: seq<CryptoApiData>)

  /** A display row: one string per table cell. */
  type Row = seq<string>

  /** The fixed endpoint the provider is created with. */
  const Url: string := "https://api.coincap.io/v2/assets"

  /** Number of leading bytes of the 24h change that are kept. */
  const ChangeWidth: nat := 6

  /** The number of cells of a projected row. */
  const RowWidth: nat := 4

  /** The byte slice `[0..ChangeWidth]` panics on a shorter string, so a
      record can only be projected when its change has at least that many
      bytes. */
  predicate Projectable(x: CryptoApiData)
  {
    |x.changePercent24Hr| >= ChangeWidth
  }

  predicate AllProjectable(records: seq<CryptoApiData>)
  {
    forall i :: 0 <= i < |records| ==> Projectable(records[i])
  }

  /** The price cell: a dollar sign followed by the price text, unchanged. */
  function FormatPrice(price: string): (cell: string)
    ensures |cell| == |price| + 1
    ensures cell[0] == '$' && cell[1..] == price
  {
    "$" + price
  }

  /** The change cell: the first six bytes of the change text and a percent
      sign. */
  function FormatChange(change: string): (cell: string)
    requires |change| >= ChangeWidth
    ensures |cell| == ChangeWidth + 1
    ensures cell[..ChangeWidth] == change[..ChangeWidth]
    ensures cell[ChangeWidth] == '%'
  {
    change[..ChangeWidth] + "%"
  }

  /** The closure inside `map` of `update_items`. */
  function ProjectRecord(x: CryptoApiData): (row: Row)
    requires Projectable(x)
    ensures |row| == RowWidth
    ensures row[0] == x.symbol && row[1] == x.name
    ensures |row[2]| == |x.priceUsd| + 1 && row[2][0] == '$' && row[2][1..] == x.priceUsd
    ensures |row[3]| == ChangeWidth + 1 && row[3][ChangeWidth] == '%'
    ensures row[3][..ChangeWidth] == x.changePercent24Hr[..ChangeWidth]
  {
    [x.symbol, x.name, FormatPrice(x.priceUsd), FormatChange(x.changePercent24Hr)]
  }

  /** The `map`/`collect` over the decoded records: one row per record, in
      input order. */
  function ProjectAll(records: seq<CryptoApiData>): (rows: seq<Row>)
    requires AllProjectable(records)
    ensures |rows| == |records|
    ensures forall i :: 0 <= i < |rows| ==> rows[i] == ProjectRecord(records[i])
  {
    if records == [] then []
    else [ProjectRecord(records[0])] + ProjectAll(records[1..])
  }

  /** Every projected row has exactly four cells, and its price and change
      cells can be traced back to the record they came from. */
  lemma ProjectedRowsAreWellFormed(records: seq<CryptoApiData>, i: nat)
    requires AllProjectable(records)
    requires i < |records|
    ensures |ProjectAll(records)[i]| == RowWidth
    ensures ProjectAll(records)[i][2] == "$" + records[i].priceUsd
    ensures ProjectAll(records)[i][3] == records[i].changePercent24Hr[..ChangeWidth] + "%"
  {
    var row := ProjectAll(records)[i];
    assert row == ProjectRecord(records[i]);
    assert row[2] == [row[2][0]] + row[2][1..];
    assert row[3] == row[3][..ChangeWidth] + [row[3][ChangeWidth]];
  }

  /** Projecting the records of two consecutive responses is projecting
      each one and concatenating the rows. */
  lemma ProjectAllAppend(xs: seq<CryptoApiData>, ys: seq<CryptoApiData>)
    requires AllProjectable(xs) && AllProjectable(ys)
    ensures AllProjectable(xs + ys)
    ensures ProjectAll(xs + ys) == ProjectAll(xs) + ProjectAll(ys)
  {
    assert forall i :: 0 <= i < |xs| ==> (xs + ys)[i] == xs[i];
    assert forall i :: |xs| <= i < |xs + ys| ==> (xs + ys)[i] == ys[i - |xs|];
    var whole, parts := ProjectAll(xs + ys), ProjectAll(xs) + ProjectAll(ys);
    forall i | 0 <= i < |whole|
      ensures whole[i] == parts[i]
    {
      if i < |xs| {
        assert whole[i] == ProjectRecord(xs[i]);
      } else {
        assert whole[i] == ProjectRecord(ys[i - |xs|]);
      }
    }
  }

  /** A sample Bitcoin record whose change is `-2.345678`. */
  lemma BitcoinRecordProjection()
    ensures var btc := CryptoApiData("bitcoin", "BTC", "Bitcoin", "1", "67000.12", "-2.345678");
            Projectable(btc) &&
            ProjectAll([btc]) == [["BTC", "Bitcoin", "$67000.12", "-2.345%"]]
  {
    var btc := CryptoApiData("bitcoin", "BTC", "Bitcoin", "1", "67000.12", "-2.345678");
    assert FormatPrice(btc.priceUsd) == "$67000.12";
    assert btc.changePercent24Hr[..ChangeWidth] == "-2.345";
    assert FormatChange(btc.changePercent24Hr) == "-2.345%";
    assert ProjectRecord(btc) == ["BTC", "Bitcoin", "$67000.12", "-2.345%"];
    assert [btc][1..] == [];
  }

  /** A change text of fewer than six bytes (such as `0.5`) anywhere in the
      response makes the whole projection impossible, not only that row:
      the slice of that one record panics. */
  lemma ShortChangeIsNotProjectable(xs: seq<CryptoApiData>, x: CryptoApiData, ys: seq<CryptoApiData>)
    requires |x.changePercent24Hr| < ChangeWidth
    ensures !AllProjectable(xs + [x] + ys)
  {
    assert (xs + [x] + ys)[|xs|] == x;
  }

  /** `DataProvider`: `raw` owns the projected rows; `items` is a field the
      provider is created with and that `update_items` does not assign. */
  class DataProvider {
    var items: seq<Row>
    const url: string
    var raw: seq<Row>

    constructor ()
      ensures items == [] && raw == [] && url == Url
    {
      items := [];
      raw := [];
      url := Url;
    }

    /** `update_items`, given the envelope that the fetch decoded: stores the
        projection in `raw` and returns views of the stored rows. */
    method UpdateItems(decoded: CryptoApiStruct) returns (views: seq<Row>)
      requires AllProjectable(decoded.data)
      modifies this`raw
      ensures raw == ProjectAll(decoded.data)
      ensures views == raw
      ensures items == old(items)
    {
      raw := ProjectAll(decoded.data);
      views := raw;
    }
  }
}
