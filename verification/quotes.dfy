/**
 * The decoded answer of Investing.com's quote search: the Stock, Quote,
 * Total and Filter records that the JSON body is decoded into.
 */
module Quotes {

  /** One search hit; the JSON key of each field is in its comment. */
  datatype Quote = Quote(
    pairId: int,          // "pairId"
    name: string,         // "name"
    flag: string,         // "flag", the country name
    link: string,         // "link"
    symbol: string,       // "symbol"
    typeString: string,   // "type"
    pairType: string,     // "pair_type", the asset type
    pairTypeRaw: string,  // "pair_type_raw"
    countryId: int,       // "countryID"
    sector: int,          // "sector"
    region: int,          // "region"
    industry: int,        // "industry"
    isCrypto: bool,       // "isCrypto"
    exchange: string,     // "exchange"
    exchangeId: int       // "exchangeID"
  )

  /** The hit counts of a search ("total"). */
  datatype Total = Total(quotes: int, allResults: int)

  /** A search filter; the record has no fields. */
  datatype Filter = Filter

  /** The whole decoded answer. */
  datatype Stock = Stock(quotes: seq<Quote>, totals: Total, filters: seq<Filter>)
}
