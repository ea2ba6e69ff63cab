/**
 * The quote filter and the identifier lookup of search.go.  Both start
 * from the answer of searchQuotes(symbol), which is given as the input
 * `found`: the request and the JSON decoding are not modelled.
 */
module Search {
  import opened Wrappers
  import opened GoLibrary
  import opened Quotes

  /** What searchQuotes(symbol) returns: the (possibly partly decoded) Stock and its error. */
  datatype SearchResponse = SearchResponse(stock: Stock, err: Option<string>)

  // ---------------------------------------------------------------------
  // searchQuotesAssetTypeCountry
  // ---------------------------------------------------------------------

  /** The branch the filter takes, chosen by which arguments are non-empty. */
  datatype FilterMode =
    | ByTypeAndCountry // assetType and country both given
    | ByCountry        // only country given
    | ByType           // only assetType given
    | Unfiltered       // neither given, symbol given
    | Cleared          // all three empty

  function ModeOf(symbol: string, assetType: string, country: string): FilterMode {
    if |assetType| > 0 && |country| > 0 then ByTypeAndCountry
    else if |country| > 0 then ByCountry
    else if |assetType| > 0 then ByType
    else if |symbol| > 0 then Unfiltered
    else Cleared
  }

  /** Whether a quote survives the filter in the given mode. */
  predicate Keeps(mode: FilterMode, assetType: string, country: string, q: Quote) {
    match mode
    case ByTypeAndCountry => EqualFold(q.pairType, assetType) && EqualFold(q.flag, country)
    case ByCountry => EqualFold(q.flag, country)
    case ByType => EqualFold(q.pairType, assetType)
    case Unfiltered => true
    case Cleared => false
  }

  /** The quotes that survive, in their original order. */
  function Select(qs: seq<Quote>, mode: FilterMode, assetType: string, country: string): (r: seq<Quote>)
    ensures |r| <= |qs|
    decreases |qs|
  {
    if qs == [] then []
    else
      var last := qs[|qs| - 1];
      Select(qs[..|qs| - 1], mode, assetType, country) + (if Keeps(mode, assetType, country, last) then [last] else [])
  }

  /** What searchQuotesAssetTypeCountry returns for the search answer `found`. */
  function Filtered(symbol: string, assetType: string, country: string, found: SearchResponse): (Stock, Option<string>) {
    if found.err.Some? then (found.stock, found.err)
    else
      var mode := ModeOf(symbol, assetType, country);
      (found.stock.(quotes := Select(found.stock.quotes, mode, assetType, country)), None)
  }

  /**
   * The filter loops of searchQuotesAssetTypeCountry.  A search error is
   * handed back with the search's Stock before any filtering; otherwise
   * only the quote list may change, never the totals or the filters.
   */
  method SearchQuotesAssetTypeCountry(symbol: string, assetType: string, country: string, found: SearchResponse)
    returns (s: Stock, err: Option<string>)
    ensures (s, err) == Filtered(symbol, assetType, country, found)
    ensures found.err.Some? ==> s == found.stock && err == found.err
    ensures err == found.err
    ensures s.totals == found.stock.totals && s.filters == found.stock.filters
  {
    s := found.stock;
    if found.err.Some? {
      return s, found.err;
    }
    var mode := ModeOf(symbol, assetType, country);
    var q: seq<Quote> := [];
    if |assetType| > 0 && |country| > 0 {
      for i := 0 to |s.quotes|
        invariant q == Select(s.quotes[..i], mode, assetType, country)
      {
        assert s.quotes[..i + 1][..i] == s.quotes[..i];
        if EqualFold(s.quotes[i].pairType, assetType) && EqualFold(s.quotes[i].flag, country) {
          q := q + [s.quotes[i]];
        }
      }
    } else if |country| > 0 {
      for i := 0 to |s.quotes|
        invariant q == Select(s.quotes[..i], mode, assetType, country)
      {
        assert s.quotes[..i + 1][..i] == s.quotes[..i];
        if EqualFold(s.quotes[i].flag, country) {
          q := q + [s.quotes[i]];
        }
      }
    } else if |assetType| > 0 {
      for i := 0 to |s.quotes|
        invariant q == Select(s.quotes[..i], mode, assetType, country)
      {
        assert s.quotes[..i + 1][..i] == s.quotes[..i];
        if EqualFold(s.quotes[i].pairType, assetType) {
          q := q + [s.quotes[i]];
        }
      }
    } else if |symbol| > 0 {
      SelectAll(s.quotes, assetType, country);
      return s, None;
    } else {
      SelectNone(s.quotes, assetType, country);
    }
    assert s.quotes[..|s.quotes|] == s.quotes;
    s := s.(quotes := q);
    return s, None;
  }

  // ---------------------------------------------------------------------
  // What the filter keeps
  // ---------------------------------------------------------------------

  /** Without filters every quote survives: the list comes back unchanged. */
  lemma {:induction false} SelectAll(qs: seq<Quote>, assetType: string, country: string)
    ensures Select(qs, Unfiltered, assetType, country) == qs
    decreases |qs|
  {
    if qs != [] {
      SelectAll(qs[..|qs| - 1], assetType, country);
    }
  }

  /** With every argument empty no quote survives. */
  lemma {:induction false} SelectNone(qs: seq<Quote>, assetType: string, country: string)
    ensures Select(qs, Cleared, assetType, country) == []
    decreases |qs|
  {
    if qs != [] {
      SelectNone(qs[..|qs| - 1], assetType, country);
    }
  }

  /** A quote is in the result exactly when it is in the input and passes the filter. */
  lemma {:induction false} SelectMembers(qs: seq<Quote>, mode: FilterMode, assetType: string, country: string)
    ensures forall q :: q in Select(qs, mode, assetType, country) <==> q in qs && Keeps(mode, assetType, country, q)
    decreases |qs|
  {
    if qs != [] {
      var init := qs[..|qs| - 1];
      SelectMembers(init, mode, assetType, country);
      assert qs == init + [qs[|qs| - 1]];
    }
  }

  /**
   * Each quote occurs in the result as often as in the input when it passes
   * the filter and not at all otherwise: nothing is duplicated or invented.
   */
  lemma {:induction false} SelectCounts(qs: seq<Quote>, mode: FilterMode, assetType: string, country: string)
    ensures forall q :: multiset(Select(qs, mode, assetType, country))[q] ==
                        if Keeps(mode, assetType, country, q) then multiset(qs)[q] else 0
    decreases |qs|
  {
    if qs != [] {
      var init := qs[..|qs| - 1];
      SelectCounts(init, mode, assetType, country);
      assert qs == init + [qs[|qs| - 1]];
    }
  }

  /** `idx` picks, in increasing order, the positions of `qs` that make up `r`. */
  predicate IsEmbedding(idx: seq<nat>, r: seq<Quote>, qs: seq<Quote>) {
    |idx| == |r|
    && (forall j :: 0 <= j < |idx| ==> idx[j] < |qs| && r[j] == qs[idx[j]])
    && (forall j, l :: 0 <= j < l < |idx| ==> idx[j] < idx[l])
  }

  /** The result is a subsequence of the input: the surviving quotes keep their relative order. */
  lemma {:induction false} SelectIsSubsequence(qs: seq<Quote>, mode: FilterMode, assetType: string, country: string)
    ensures exists idx: seq<nat> :: IsEmbedding(idx, Select(qs, mode, assetType, country), qs)
    decreases |qs|
  {
    var r := Select(qs, mode, assetType, country);
    if qs == [] {
      assert IsEmbedding([], r, qs);
    } else {
      var n := |qs| - 1;
      var init := qs[..n];
      SelectIsSubsequence(init, mode, assetType, country);
      var r0 := Select(init, mode, assetType, country);
      var idx0: seq<nat> :| IsEmbedding(idx0, r0, init);
      assert forall j :: 0 <= j < |idx0| ==> idx0[j] < n && qs[idx0[j]] == init[idx0[j]];
      if Keeps(mode, assetType, country, qs[n]) {
        var idx := idx0 + [n];
        assert r == r0 + [qs[n]];
        assert IsEmbedding(idx, r, qs);
      } else {
        assert IsEmbedding(idx0, r, qs);
      }
    }
  }

  /**
   * The four-way policy of searchQuotesAssetTypeCountry, stated on the
   * arguments: both filters given, only the country, only the asset type
   * (all matched case-insensitively), none with a symbol (the list comes
   * back unchanged), and none at all (the list is emptied).
   */
  lemma FilterPolicy(symbol: string, assetType: string, country: string, found: SearchResponse)
    requires found.err.None?
    ensures var r := Filtered(symbol, assetType, country, found).0.quotes;
            var qs := found.stock.quotes;
            (|assetType| > 0 && |country| > 0 ==>
               forall q :: q in r <==> q in qs && EqualFold(q.pairType, assetType) && EqualFold(q.flag, country))
            && (|assetType| == 0 && |country| > 0 ==>
               forall q :: q in r <==> q in qs && EqualFold(q.flag, country))
            && (|assetType| > 0 && |country| == 0 ==>
               forall q :: q in r <==> q in qs && EqualFold(q.pairType, assetType))
            && (|assetType| == 0 && |country| == 0 && |symbol| > 0 ==> r == qs)
            && (|assetType| == 0 && |country| == 0 && |symbol| == 0 ==> r == [])
  {
    var mode := ModeOf(symbol, assetType, country);
    var qs := found.stock.quotes;
    SelectMembers(qs, mode, assetType, country);
    if mode == Unfiltered {
      SelectAll(qs, assetType, country);
    } else if mode == Cleared {
      SelectNone(qs, assetType, country);
    }
  }

  // ---------------------------------------------------------------------
  // symbolId
  // ---------------------------------------------------------------------

  /** The match test of symbolId: asset type and country both equal up to case. */
  predicate FoldMatches(q: Quote, assetType: string, country: string) {
    EqualFold(q.pairType, assetType) && EqualFold(q.flag, country)
  }

  /** The position of the first quote that matches, if any. */
  function FirstFoldMatch(qs: seq<Quote>, assetType: string, country: string): (r: Option<nat>)
    ensures r.Some? ==> r.value < |qs| && FoldMatches(qs[r.value], assetType, country)
                        && forall j :: 0 <= j < r.value ==> !FoldMatches(qs[j], assetType, country)
    ensures r.None? ==> forall j :: 0 <= j < |qs| ==> !FoldMatches(qs[j], assetType, country)
    decreases |qs|
  {
    if qs == [] then None
    else if FoldMatches(qs[0], assetType, country) then Some(0)
    else match FirstFoldMatch(qs[1..], assetType, country)
      case None => None
      case Some(i) => Some(i + 1)
  }

  /**
   * symbolId of search.go: the pairId of the first quote of the search
   * answer whose asset type and country match up to case; -1 when none
   * does, and -1 with the search's error when the search failed.
   */
  method SymbolId(country: string, assetType: string, symbol: string, found: SearchResponse)
    returns (id: int, err: Option<string>)
    ensures err == found.err
    ensures found.err.Some? ==> id == -1
    ensures found.err.None? ==>
              id == match FirstFoldMatch(found.stock.quotes, assetType, country)
                    case Some(i) => found.stock.quotes[i].pairId
                    case None => -1
  {
    if found.err.Some? {
      return -1, found.err;
    }
    var qs := found.stock.quotes;
    for i := 0 to |qs|
      invariant forall j :: 0 <= j < i ==> !FoldMatches(qs[j], assetType, country)
    {
      if EqualFold(qs[i].pairType, assetType) && EqualFold(qs[i].flag, country) {
        return qs[i].pairId, None;
      }
    }
    return -1, None;
  }

  /**
   * With both filters given, the quote symbolId picks is the first quote
   * that searchQuotesAssetTypeCountry keeps, and it picks none exactly
   * when the filter keeps none.
   */
  lemma {:induction false} FirstMatchHeadsSelection(qs: seq<Quote>, assetType: string, country: string)
    ensures FirstFoldMatch(qs, assetType, country).None? <==> Select(qs, ByTypeAndCountry, assetType, country) == []
    ensures FirstFoldMatch(qs, assetType, country).Some? ==>
              Select(qs, ByTypeAndCountry, assetType, country)[0] == qs[FirstFoldMatch(qs, assetType, country).value]
    decreases |qs|
  {
    if qs != [] {
      var n := |qs| - 1;
      var init := qs[..n];
      FirstMatchHeadsSelection(init, assetType, country);
      assert forall j :: 0 <= j < n ==> init[j] == qs[j];
      if FirstFoldMatch(init, assetType, country).Some? {
        assert FirstFoldMatch(qs, assetType, country) == FirstFoldMatch(init, assetType, country);
      } else if FoldMatches(qs[n], assetType, country) {
        assert FirstFoldMatch(qs, assetType, country) == Some(n);
      } else {
        assert FirstFoldMatch(qs, assetType, country).None?;
      }
    }
  }

  /**
   * symbolId has no shortcut for empty arguments: an empty asset type
   * matches exactly the quotes whose asset type is empty, and likewise for
   * the country.
   */
  lemma EmptyFilterMatchesOnlyEmpty(q: Quote, assetType: string, country: string)
    ensures assetType == "" ==> (FoldMatches(q, assetType, country) <==> q.pairType == "" && EqualFold(q.flag, country))
    ensures country == "" ==> (FoldMatches(q, assetType, country) <==> q.flag == "" && EqualFold(q.pairType, assetType))
  {
    EqualFoldEmpty(q.pairType);
    EqualFoldEmpty(q.flag);
  }
}
