/**
 * The `sell-offers` and `buy-offers` commands once the page has been fetched
 * and parsed: the scan loops as they run, proved against the reference
 * functions of `Offers`.
 */
module Commands {
  import opened Wrappers
  import opened ItemIds
  import opened PriceStats
  import opened Offers

  /** Where the search over the rest of the list resumes: a later match overrides `acc`. */
  function Resume(acc: Option<nat>, i: nat, rest: Result<Option<nat>, string>): Result<Option<nat>, string> {
    match rest
    case Failure(e) => Failure(e)
    case Success(None) => Success(acc)
    case Success(Some(j)) => Success(Some(i + j))
  }

  /** One more slot read: a match at `index` replaces the accumulated index. */
  lemma ResumeStep(slots: seq<Slot>, index: nat, itemId: string, acc: Option<nat>)
    requires index < |slots|
    ensures Resume(acc, index, LastMatch(slots[index..], itemId)) ==
      match ItemIdOf(slots[index])
      case None => Failure(slots[index].href)
      case Some(x) => Resume(if x == itemId then Some(index) else acc, index + 1, LastMatch(slots[index + 1..], itemId))
  {
    assert slots[index..][0] == slots[index];
    assert slots[index..][1..] == slots[index + 1..];
  }

  /**
   * The inner `forEach`: every slot is read in order and `sellIndex` is
   * overwritten at each match, so the last match is kept.
   */
  method FindSellIndex(sellItems: seq<Slot>, itemId: string) returns (r: Result<Option<nat>, string>)
    ensures r == LastMatch(sellItems, itemId)
  {
    var sellIndex: Option<nat> := None;
    assert sellItems[0..] == sellItems;
    for index := 0 to |sellItems|
      invariant sellIndex.Some? ==> sellIndex.value < index
      invariant LastMatch(sellItems, itemId) == Resume(sellIndex, index, LastMatch(sellItems[index..], itemId))
    {
      ResumeStep(sellItems, index, itemId, sellIndex);
      var id := ExtractItemId(sellItems[index].href);
      if id.None? {
        return Failure(sellItems[index].href);
      }
      if id.value == itemId {
        sellIndex := Some(index);
      }
    }
    return Success(sellIndex);
  }

  /** One more listing scanned: its contribution moves from the rest into the prefix. */
  lemma ScanStep(tradeOffers: seq<Listing>, k: nat, side: Side, itemId: string, prices: seq<int>)
    requires k < |tradeOffers|
    ensures Prepend(prices, Prices(tradeOffers[k..], side, itemId)) ==
      match ListingPrice(tradeOffers[k], side, itemId)
      case Failure(e) => Failure(e)
      case Success(c) => Prepend(prices + OptionToSeq(c), Prices(tradeOffers[k + 1..], side, itemId))
  {
    assert tradeOffers[k..][0] == tradeOffers[k];
    assert tradeOffers[k..][1..] == tradeOffers[k + 1..];
    match ListingPrice(tradeOffers[k], side, itemId) {
      case Failure(e) =>
      case Success(c) =>
        match Prices(tradeOffers[k + 1..], side, itemId) {
          case Failure(e) =>
          case Success(q) =>
            assert prices + (OptionToSeq(c) + q) == (prices + OptionToSeq(c)) + q;
        }
    }
  }

  /**
   * The outer `forEach`: each listing's paired slot is checked and its
   * amount pushed onto `prices`; a missing id anywhere aborts the scan.
   */
  method ScanOffers(tradeOffers: seq<Listing>, side: Side, itemId: string) returns (r: Result<seq<int>, string>)
    ensures r == Prices(tradeOffers, side, itemId)
  {
    var prices: seq<int> := [];
    assert tradeOffers[0..] == tradeOffers;
    match Prices(tradeOffers, side, itemId) {
      case Failure(e) =>
      case Success(q) => assert [] + q == q;
    }
    for k := 0 to |tradeOffers|
      invariant Prices(tradeOffers, side, itemId) == Prepend(prices, Prices(tradeOffers[k..], side, itemId))
    {
      var tradeOffer := tradeOffers[k];
      ScanStep(tradeOffers, k, side, itemId, prices);
      var found := FindSellIndex(Searched(tradeOffer, side), itemId);
      if found.Failure? {
        return Failure(found.error);
      }
      var forItems := Paired(tradeOffer, side);
      if found.value.None? || found.value.value >= |forItems| {
        assert prices + [] == prices;
        continue;
      }
      var forItem := forItems[found.value.value];
      var forId := ExtractItemId(forItem.href);
      if forId.None? {
        return Failure(forItem.href);
      }
      if forId.value != KeyItemId || forItem.amount.None? {
        assert prices + [] == prices;
        continue;
      }
      prices := prices + [forItem.amount.value];
    }
    assert tradeOffers[|tradeOffers|..] == [];
    assert prices + [] == prices;
    return Success(prices);
  }

  /** What a command ends with. */
  datatype Outcome =
    | Crashed(href: string)
    | NoMatchingOffers
    | Found(prices: seq<int>, stats: Summary)

  /**
   * Scan, then fail with "no matching offers" on an empty list, or report the
   * statistics of the prices found.
   */
  method Conclude(tradeOffers: seq<Listing>, side: Side, itemId: string) returns (o: Outcome)
    ensures o.Crashed? <==> Prices(tradeOffers, side, itemId).Failure?
    ensures o.Crashed? ==> o.href == Prices(tradeOffers, side, itemId).error
    ensures o.NoMatchingOffers? <==> Prices(tradeOffers, side, itemId) == Success([])
    ensures o.Found? ==> Prices(tradeOffers, side, itemId) == Success(o.prices) && |o.prices| > 0
    ensures o.Found? ==> LogPriceStats(o.prices) == Some(o.stats)
  {
    var scan := ScanOffers(tradeOffers, side, itemId);
    match scan
    case Failure(href) =>
      o := Crashed(href);
    case Success(prices) =>
      if |prices| == 0 {
        o := NoMatchingOffers;
      } else {
        o := Found(prices, LogPriceStats(prices).value);
      }
  }

  /** `sell-offers`: search "your items", price from "their items". */
  method SellOffers(tradeOffers: seq<Listing>, itemId: string) returns (o: Outcome)
    ensures o.Crashed? <==> Prices(tradeOffers, Sell, itemId).Failure?
    ensures o.Crashed? ==> o.href == Prices(tradeOffers, Sell, itemId).error
    ensures o.NoMatchingOffers? <==> Prices(tradeOffers, Sell, itemId) == Success([])
    ensures o.Found? ==> Prices(tradeOffers, Sell, itemId) == Success(o.prices) && |o.prices| > 0
    ensures o.Found? ==> LogPriceStats(o.prices) == Some(o.stats)
  {
    o := Conclude(tradeOffers, Sell, itemId);
  }

  /** `buy-offers`: search "their items", price from "your items". */
  method BuyOffers(tradeOffers: seq<Listing>, itemId: string) returns (o: Outcome)
    ensures o.Crashed? <==> Prices(tradeOffers, Buy, itemId).Failure?
    ensures o.Crashed? ==> o.href == Prices(tradeOffers, Buy, itemId).error
    ensures o.NoMatchingOffers? <==> Prices(tradeOffers, Buy, itemId) == Success([])
    ensures o.Found? ==> Prices(tradeOffers, Buy, itemId) == Success(o.prices) && |o.prices| > 0
    ensures o.Found? ==> LogPriceStats(o.prices) == Some(o.stats)
  {
    o := Conclude(tradeOffers, Buy, itemId);
  }
}
