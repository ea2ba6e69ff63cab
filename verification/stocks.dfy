/**
 * The older getStockHistoricalData of stocks.go.  It runs the same two
 * token loops as historical.go, so its cells come in the same order
 * (close, open, high, low), under a header that labels them open, high,
 * low, close; it returns the rows alone, and ends the process with
 * log.Fatalln on every transport or log-file failure.
 */
module Stocks {
  import opened Wrappers
  import opened HtmlToken
  import opened TableExtractor
  import Historical

  /** The header row of this version; its labels do not match the order of the cells below it. */
  const Header: Row := ["Date", "Open", "High", "Low", "Close", "Vol."]

  /** What the transport part of the function delivered. */
  datatype Fetch =
    | Fetched(body: seq<Token>) // the tokens of the response body
    | Failed(err: string)       // any failure before tokenising, each one a log.Fatalln

  /** How a call ends. */
  datatype Outcome =
    | Returned(records: seq<Row>)
    | Exited(message: string)
    | Panicked(panic: Panic)

  function FromExtraction(table: Result<seq<Row>, Panic>): Outcome {
    match table
    case Ok(records) => Returned(records)
    case Err(p) => Panicked(p)
  }

  /**
   * The returned table starts with this version's header, has six cells in
   * every data row and one data row per </tr> before </table>.
   */
  method GetStockHistoricalData(fetch: Fetch) returns (out: Outcome)
    ensures fetch.Failed? ==> out == Exited(fetch.err)
    ensures fetch.Fetched? ==> out == FromExtraction(Extract(Header, fetch.body))
    ensures out.Returned? ==>
              fetch.Fetched?
              && |out.records| == 1 + CountRowEnds(Region(Body(fetch.body))) && out.records[0] == Header
              && forall j :: 1 <= j < |out.records| ==> |out.records[j]| == RowWidth
  {
    match fetch
    case Failed(e) =>
      return Exited(e);
    case Fetched(body) =>
      var table := ExtractTable(Header, body);
      ExtractShape(Header, body);
      match table
      case Ok(rows) => out := Returned(rows);
      case Err(p) => out := Panicked(p);
  }

  /**
   * On the same body both versions panic alike or return the same data
   * rows: only the header labels differ, the cell order is the same.
   */
  lemma SameRowsAsHistorical(body: seq<Token>)
    ensures Extract(Header, body).Err? <==> Extract(Historical.Header, body).Err?
    ensures Extract(Header, body).Err? ==> Extract(Header, body) == Extract(Historical.Header, body)
    ensures Extract(Header, body).Ok? ==>
              Extract(Header, body).value[1..] == Extract(Historical.Header, body).value[1..]
  {
    var rest := Scan(Body(body), BlankRow(), 0);
    if rest.Ok? {
      assert ([Header] + rest.value)[1..] == rest.value;
      assert ([Historical.Header] + rest.value)[1..] == rest.value;
    }
  }
}
