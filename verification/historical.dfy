/**
 * getStockHistoricalData of historical.go: fetch the historical-data table
 * of one instrument and return it as rows of strings under a fixed header.
 * The request, the HTTP round trip, gzip and reading the body are not
 * modelled; their outcome is the input `fetch`.
 */
module Historical {
  import opened Wrappers
  import opened HtmlToken
  import opened TableExtractor

  /** The header row; the column after the date holds the close price. */
  const Header: Row := ["Date", "Close", "Open", "High", "Low", "Vol."]

  /** What the transport part of the function delivered. */
  datatype Fetch =
    | Fetched(body: seq<Token>)   // the tokens of the response body
    | TransportFailed(err: string) // NewRequest, client.Do or ReadAll returned this error
    | GzipFailed(err: string)      // gzip.NewReader failed: log.Fatalln ends the process

  /** How a call ends. */
  datatype Outcome =
    | Returned(records: seq<Row>, err: Option<string>)
    | Exited(message: string)
    | Panicked(panic: Panic)

  /** The outcome of the token loops on a fetched body. */
  function FromExtraction(table: Result<seq<Row>, Panic>): Outcome {
    match table
    case Ok(records) => Returned(records, None)
    case Err(p) => Panicked(p)
  }

  /**
   * Every return, the early error returns included, carries the header as
   * its first row; every data row has six cells; without an error there is
   * one data row per </tr> between the first "tbody" token and </table>.
   */
  method GetStockHistoricalData(fetch: Fetch) returns (out: Outcome)
    ensures fetch.TransportFailed? ==> out == Returned([Header], Some(fetch.err))
    ensures fetch.GzipFailed? ==> out == Exited(fetch.err)
    ensures fetch.Fetched? ==> out == FromExtraction(Extract(Header, fetch.body))
    ensures out.Returned? ==>
              |out.records| >= 1 && out.records[0] == Header
              && forall j :: 1 <= j < |out.records| ==> |out.records[j]| == RowWidth
    ensures out.Returned? && out.err.None? ==>
              fetch.Fetched? && |out.records| == 1 + CountRowEnds(Region(Body(fetch.body)))
  {
    var records: seq<Row> := [Header];
    match fetch
    case TransportFailed(e) =>
      return Returned(records, Some(e));
    case GzipFailed(e) =>
      return Exited(e);
    case Fetched(body) =>
      var table := ExtractTable(Header, body);
      ExtractShape(Header, body);
      match table
      case Ok(rows) => out := Returned(rows, None);
      case Err(p) => out := Panicked(p);
  }
}
