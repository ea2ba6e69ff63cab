/**
 * symbolId of searchQuotes.go, the older identifier lookup.  It starts
 * from the answer of SearchQuotes(symbol, country), given as the input
 * `s`; that search either decodes a Stock or ends the process, and only
 * the decoded Stock is modelled.  The Stock of searchQuotes.go declares
 * its records inline, with the same fields as Quotes.Stock.
 */
module SearchQuotes {
  import opened Wrappers
  import opened GoLibrary
  import opened Quotes

  /** The match test: symbol and country equal, case-sensitively. */
  predicate ExactlyMatches(q: Quote, symbol: string, country: string) {
    q.symbol == symbol && q.flag == country
  }

  /** The position of the first quote that matches, if any. */
  function FirstExactMatch(qs: seq<Quote>, symbol: string, country: string): (r: Option<nat>)
    ensures r.Some? ==> r.value < |qs| && ExactlyMatches(qs[r.value], symbol, country)
                        && forall j :: 0 <= j < r.value ==> !ExactlyMatches(qs[j], symbol, country)
    ensures r.None? ==> forall j :: 0 <= j < |qs| ==> !ExactlyMatches(qs[j], symbol, country)
    decreases |qs|
  {
    if qs == [] then None
    else if ExactlyMatches(qs[0], symbol, country) then Some(0)
    else match FirstExactMatch(qs[1..], symbol, country)
      case None => None
      case Some(i) => Some(i + 1)
  }

  /** The pairId symbolId reports for the quotes `qs`: that of the first match, or 0. */
  function ResolvedId(qs: seq<Quote>, symbol: string, country: string): int {
    match FirstExactMatch(qs, symbol, country)
    case Some(i) => qs[i].pairId
    case None => 0
  }

  /**
   * The pairId of the first quote whose symbol and country equal the
   * arguments exactly; 0 when there is none.
   */
  method SymbolId(symbol: string, country: string, s: Stock) returns (id: int)
    ensures id == ResolvedId(s.quotes, symbol, country)
    ensures FirstExactMatch(s.quotes, symbol, country).None? ==> id == 0
  {
    for i := 0 to |s.quotes|
      invariant forall j :: 0 <= j < i ==> !ExactlyMatches(s.quotes[j], symbol, country)
    {
      var quote := s.quotes[i];
      if quote.symbol == symbol && quote.flag == country {
        return quote.pairId;
      }
    }
    return 0;
  }

  /**
   * No field but symbol, country and pairId affects the answer: quote lists
   * that agree on these fields, position by position, resolve alike.
   */
  lemma {:induction false} OnlySymbolAndFlagMatter(qs: seq<Quote>, qs': seq<Quote>, symbol: string, country: string)
    requires |qs| == |qs'|
    requires forall j :: 0 <= j < |qs| ==>
               qs[j].symbol == qs'[j].symbol && qs[j].flag == qs'[j].flag && qs[j].pairId == qs'[j].pairId
    ensures FirstExactMatch(qs, symbol, country) == FirstExactMatch(qs', symbol, country)
    ensures ResolvedId(qs, symbol, country) == ResolvedId(qs', symbol, country)
    decreases |qs|
  {
    if qs != [] {
      OnlySymbolAndFlagMatter(qs[1..], qs'[1..], symbol, country);
    }
  }

  /** Quotes after the first match are never consulted. */
  lemma {:induction false} LaterQuotesIgnored(qs: seq<Quote>, more: seq<Quote>, symbol: string, country: string)
    requires FirstExactMatch(qs, symbol, country).Some?
    ensures FirstExactMatch(qs + more, symbol, country) == FirstExactMatch(qs, symbol, country)
    decreases |qs|
  {
    assert (qs + more)[0] == qs[0];
    if !ExactlyMatches(qs[0], symbol, country) {
      assert (qs + more)[1..] == qs[1..] + more;
      LaterQuotesIgnored(qs[1..], more, symbol, country);
    }
  }

  /**
   * Matching is case-sensitive: a quote listed under "Italy" is not found
   * for the country "italy", although strings.EqualFold would match them.
   */
  lemma CaseSensitive(q: Quote)
    requires q.symbol == "AAPLE" && q.flag == "Italy"
    ensures EqualFold(q.flag, "italy")
    ensures FirstExactMatch([q], "AAPLE", "italy").None? && ResolvedId([q], "AAPLE", "italy") == 0
    ensures ResolvedId([q], "AAPLE", "Italy") == q.pairId
  {
    EqualFoldCharwise(q.flag, "italy");
  }
}
