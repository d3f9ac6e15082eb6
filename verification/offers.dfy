/**
 * Trade listings as data and the rule that turns a page of listings into a
 * list of key prices, stated as reference functions with their properties.
 */
module Offers {
  import opened Wrappers
  import opened ItemIds

  /** One item link of a listing: its href and, when present, the parsed amount. */
  datatype Slot = Slot(href: string, amount: Option<int>)

  /** A trade listing: the `#rlg-youritems` links and the `#rlg-theiritems` links. */
  datatype Listing = Listing(yourItems: seq<Slot>, theirItems: seq<Slot>)

  /** The two commands: sell offers search "your items", buy offers "their items". */
  datatype Side = Sell | Buy

  /** The item id of the key, the currency prices are counted in. */
  const KeyItemId: string := "496"

  /** The side searched for the requested item. */
  function Searched(l: Listing, side: Side): seq<Slot> {
    match side
    case Sell => l.yourItems
    case Buy => l.theirItems
  }

  /** The side whose slot at the found index is the price. */
  function Paired(l: Listing, side: Side): seq<Slot> {
    match side
    case Sell => l.theirItems
    case Buy => l.yourItems
  }

  function ItemIdOf(slot: Slot): Option<string> {
    ExtractItemId(slot.href)
  }

  /** Every slot's href carries an item id, so reading them throws nothing. */
  ghost predicate WellFormed(slots: seq<Slot>) {
    forall k :: 0 <= k < |slots| ==> ItemIdOf(slots[k]).Some?
  }

  /** Slot `j` is the first whose href carries no item id. */
  ghost predicate FirstMalformed(slots: seq<Slot>, j: nat) {
    && j < |slots|
    && ItemIdOf(slots[j]).None?
    && forall k :: 0 <= k < j ==> ItemIdOf(slots[k]).Some?
  }

  /** Slot `i` has the requested id and no later slot has it. */
  ghost predicate IsLastMatch(slots: seq<Slot>, itemId: string, i: nat) {
    && i < |slots|
    && ItemIdOf(slots[i]) == Some(itemId)
    && forall k :: i < k < |slots| ==> ItemIdOf(slots[k]) != Some(itemId)
  }

  ghost predicate NoMatch(slots: seq<Slot>, itemId: string) {
    forall k :: 0 <= k < |slots| ==> ItemIdOf(slots[k]) != Some(itemId)
  }

  /**
   * Reference definition of the index search: a match in the rest of the
   * list wins over the head; the first href without an id is thrown.
   */
  function LastMatch(slots: seq<Slot>, itemId: string): Result<Option<nat>, string> {
    if |slots| == 0 then Success(None)
    else
      match ItemIdOf(slots[0])
      case None => Failure(slots[0].href)
      case Some(x) =>
        match LastMatch(slots[1..], itemId)
        case Failure(e) => Failure(e)
        case Success(None) => Success(if x == itemId then Some(0) else None)
        case Success(Some(j)) => Success(Some(j + 1))
  }

  /** The search throws exactly when some href has no id, and then with the first such href. */
  lemma {:induction false} LastMatchFails(slots: seq<Slot>, itemId: string)
    ensures LastMatch(slots, itemId).Failure? <==> !WellFormed(slots)
    ensures LastMatch(slots, itemId).Failure? ==>
      exists j: nat :: FirstMalformed(slots, j) && LastMatch(slots, itemId).error == slots[j].href
  {
    if |slots| > 0 {
      LastMatchFails(slots[1..], itemId);
      assert forall k :: 1 <= k < |slots| ==> slots[k] == slots[1..][k - 1];
      if ItemIdOf(slots[0]).None? {
        assert FirstMalformed(slots, 0);
      } else if LastMatch(slots[1..], itemId).Failure? {
        var j: nat :| FirstMalformed(slots[1..], j) && LastMatch(slots[1..], itemId).error == slots[1..][j].href;
        assert FirstMalformed(slots, j + 1);
      } else {
        assert WellFormed(slots) by {
          forall k | 0 <= k < |slots| ensures ItemIdOf(slots[k]).Some? {
            if k > 0 { assert ItemIdOf(slots[1..][k - 1]).Some?; }
          }
        }
      }
    }
  }

  /** The search finds `i` exactly when every href has an id and `i` is the last match. */
  lemma {:induction false} LastMatchFound(slots: seq<Slot>, itemId: string, i: nat)
    ensures LastMatch(slots, itemId) == Success(Some(i)) <==>
      WellFormed(slots) && IsLastMatch(slots, itemId, i)
  {
    LastMatchFails(slots, itemId);
    if |slots| > 0 {
      LastMatchFound(slots[1..], itemId, if i > 0 then i - 1 else 0);
      LastMatchNothing(slots[1..], itemId);
      assert forall k :: 1 <= k < |slots| ==> slots[k] == slots[1..][k - 1];
      if WellFormed(slots) {
        assert WellFormed(slots[1..]);
        if LastMatch(slots[1..], itemId).value.Some? {
          var j := LastMatch(slots[1..], itemId).value.value;
          LastMatchFound(slots[1..], itemId, j);
          assert IsLastMatch(slots, itemId, j + 1);
        }
      }
    }
  }

  /** The search finds nothing exactly when every href has an id and none is the requested one. */
  lemma {:induction false} LastMatchNothing(slots: seq<Slot>, itemId: string)
    ensures LastMatch(slots, itemId) == Success(None) <==> WellFormed(slots) && NoMatch(slots, itemId)
  {
    LastMatchFails(slots, itemId);
    if |slots| > 0 {
      LastMatchNothing(slots[1..], itemId);
      assert forall k :: 1 <= k < |slots| ==> slots[k] == slots[1..][k - 1];
      if WellFormed(slots) {
        assert WellFormed(slots[1..]);
        if LastMatch(slots[1..], itemId).value.Some? {
          var j := LastMatch(slots[1..], itemId).value.value;
          LastMatchFound(slots[1..], itemId, j);
          assert ItemIdOf(slots[j + 1]) == Some(itemId);
        }
      }
    }
  }

  /**
   * The price one listing contributes, None when it contributes nothing, or
   * the href whose missing id throws.
   */
  function ListingPrice(l: Listing, side: Side, itemId: string): Result<Option<int>, string> {
    match LastMatch(Searched(l, side), itemId)
    case Failure(e) => Failure(e)
    case Success(None) => Success(None)
    case Success(Some(i)) =>
      var forItems := Paired(l, side);
      if i >= |forItems| then Success(None)
      else
        match ItemIdOf(forItems[i])
        case None => Failure(forItems[i].href)
        case Some(x) => if x != KeyItemId then Success(None) else Success(forItems[i].amount)
  }

  /**
   * A listing yields price `a` exactly when the requested item's last slot
   * is paired with a key slot whose amount is `a`.
   */
  lemma ListingPriceSpec(l: Listing, side: Side, itemId: string, a: int)
    ensures ListingPrice(l, side, itemId) == Success(Some(a)) <==>
      WellFormed(Searched(l, side)) &&
      exists i: nat :: IsLastMatch(Searched(l, side), itemId, i) && i < |Paired(l, side)| &&
        ItemIdOf(Paired(l, side)[i]) == Some(KeyItemId) && Paired(l, side)[i].amount == Some(a)
  {
    var slots := Searched(l, side);
    LastMatchNothing(slots, itemId);
    LastMatchFails(slots, itemId);
    if LastMatch(slots, itemId).Success? && LastMatch(slots, itemId).value.Some? {
      var i := LastMatch(slots, itemId).value.value;
      LastMatchFound(slots, itemId, i);
      forall i': nat | IsLastMatch(slots, itemId, i') ensures i' == i {
        LastMatchFound(slots, itemId, i');
      }
    }
  }

  /** No slot on the searched side has the requested id: no price. */
  lemma NoMatchAddsNothing(l: Listing, side: Side, itemId: string)
    requires WellFormed(Searched(l, side)) && NoMatch(Searched(l, side), itemId)
    ensures ListingPrice(l, side, itemId) == Success(None)
  {
    LastMatchNothing(Searched(l, side), itemId);
  }

  /** The found index is past the end of the other side: no price. */
  lemma PastEndAddsNothing(l: Listing, side: Side, itemId: string, i: nat)
    requires WellFormed(Searched(l, side)) && IsLastMatch(Searched(l, side), itemId, i)
    requires i >= |Paired(l, side)|
    ensures ListingPrice(l, side, itemId) == Success(None)
  {
    LastMatchFound(Searched(l, side), itemId, i);
  }

  /** The paired slot is some item other than keys: no price. */
  lemma NotKeysAddsNothing(l: Listing, side: Side, itemId: string, i: nat, x: string)
    requires WellFormed(Searched(l, side)) && IsLastMatch(Searched(l, side), itemId, i)
    requires i < |Paired(l, side)| && ItemIdOf(Paired(l, side)[i]) == Some(x) && x != KeyItemId
    ensures ListingPrice(l, side, itemId) == Success(None)
  {
    LastMatchFound(Searched(l, side), itemId, i);
  }

  /** The paired key slot has no amount element: no price. */
  lemma NoAmountAddsNothing(l: Listing, side: Side, itemId: string, i: nat)
    requires WellFormed(Searched(l, side)) && IsLastMatch(Searched(l, side), itemId, i)
    requires i < |Paired(l, side)| && ItemIdOf(Paired(l, side)[i]) == Some(KeyItemId)
    requires Paired(l, side)[i].amount.None?
    ensures ListingPrice(l, side, itemId) == Success(None)
  {
    LastMatchFound(Searched(l, side), itemId, i);
  }

  /** The paired slot's href has no id: the scan throws with that href. */
  lemma MalformedPairThrows(l: Listing, side: Side, itemId: string, i: nat)
    requires WellFormed(Searched(l, side)) && IsLastMatch(Searched(l, side), itemId, i)
    requires i < |Paired(l, side)| && ItemIdOf(Paired(l, side)[i]).None?
    ensures ListingPrice(l, side, itemId) == Failure(Paired(l, side)[i].href)
  {
    LastMatchFound(Searched(l, side), itemId, i);
  }

  /** Appends a listing's contribution (at most one price) before the rest. */
  function Prepend(p: seq<int>, r: Result<seq<int>, string>): Result<seq<int>, string> {
    match r
    case Failure(e) => Failure(e)
    case Success(q) => Success(p + q)
  }

  function OptionToSeq(c: Option<int>): seq<int> {
    match c
    case None => []
    case Some(a) => [a]
  }

  /** Reference definition of the scan: listings in order, the first throw aborting it. */
  function Prices(ls: seq<Listing>, side: Side, itemId: string): Result<seq<int>, string> {
    if |ls| == 0 then Success([])
    else
      match ListingPrice(ls[0], side, itemId)
      case Failure(e) => Failure(e)
      case Success(c) => Prepend(OptionToSeq(c), Prices(ls[1..], side, itemId))
  }

  /** Scanning two pages one after the other: the prices of the first, then of the second. */
  lemma {:induction false} PricesAppend(a: seq<Listing>, b: seq<Listing>, side: Side, itemId: string)
    ensures Prices(a + b, side, itemId) ==
      match Prices(a, side, itemId)
      case Failure(e) => Failure(e)
      case Success(p) => Prepend(p, Prices(b, side, itemId))
  {
    if |a| == 0 {
      assert a + b == b;
      match Prices(b, side, itemId)
      case Failure(e) =>
      case Success(r) => assert [] + r == r;
    } else {
      assert (a + b)[0] == a[0];
      assert (a + b)[1..] == a[1..] + b;
      PricesAppend(a[1..], b, side, itemId);
      match ListingPrice(a[0], side, itemId)
      case Failure(e) =>
      case Success(c) =>
        match Prices(a[1..], side, itemId)
        case Failure(e) =>
        case Success(q) =>
          match Prices(b, side, itemId)
          case Failure(e) =>
          case Success(r) =>
            assert OptionToSeq(c) + (q + r) == (OptionToSeq(c) + q) + r;
    }
  }

  /** Each listing contributes at most one price. */
  lemma {:induction false} PricesAtMostOnePerListing(ls: seq<Listing>, side: Side, itemId: string)
    ensures Prices(ls, side, itemId).Success? ==> |Prices(ls, side, itemId).value| <= |ls|
  {
    if |ls| > 0 {
      PricesAtMostOnePerListing(ls[1..], side, itemId);
    }
  }

  /** The scan throws exactly when some listing throws, and with the first listing's error. */
  lemma {:induction false} PricesFail(ls: seq<Listing>, side: Side, itemId: string)
    ensures Prices(ls, side, itemId).Failure? <==>
      exists j :: 0 <= j < |ls| && ListingPrice(ls[j], side, itemId).Failure?
    ensures Prices(ls, side, itemId).Failure? ==>
      exists j :: 0 <= j < |ls| && ListingPrice(ls[j], side, itemId) == Failure(Prices(ls, side, itemId).error) &&
        forall k :: 0 <= k < j ==> ListingPrice(ls[k], side, itemId).Success?
  {
    if |ls| > 0 {
      PricesFail(ls[1..], side, itemId);
      assert forall k :: 1 <= k < |ls| ==> ls[k] == ls[1..][k - 1];
      if ListingPrice(ls[0], side, itemId).Success? && Prices(ls[1..], side, itemId).Failure? {
        var j :| 0 <= j < |ls[1..]| && ListingPrice(ls[1..][j], side, itemId) == Failure(Prices(ls[1..], side, itemId).error) &&
          forall k :: 0 <= k < j ==> ListingPrice(ls[1..][k], side, itemId).Success?;
        assert ListingPrice(ls[j + 1], side, itemId) == Failure(Prices(ls, side, itemId).error);
      }
    }
  }

  /** Every reported price is the price of some listing. */
  lemma {:induction false} PriceOrigin(ls: seq<Listing>, side: Side, itemId: string, n: nat)
    requires Prices(ls, side, itemId).Success? && n < |Prices(ls, side, itemId).value|
    ensures exists j :: 0 <= j < |ls| &&
                        ListingPrice(ls[j], side, itemId) == Success(Some(Prices(ls, side, itemId).value[n]))
  {
    var p := Prices(ls, side, itemId).value;
    var c := ListingPrice(ls[0], side, itemId);
    var rest := Prices(ls[1..], side, itemId);
    assert c.Success? && rest.Success? && p == OptionToSeq(c.value) + rest.value;
    if c.value.Some? && n == 0 {
      assert p[0] == c.value.value;
    } else {
      var n' := if c.value.Some? then n - 1 else n;
      assert p[n] == rest.value[n'];
      PriceOrigin(ls[1..], side, itemId, n');
      var j :| 0 <= j < |ls[1..]| && ListingPrice(ls[1..][j], side, itemId) == Success(Some(rest.value[n']));
      assert ls[1..][j] == ls[j + 1];
    }
  }

  /** Every listing that yields a price has that price reported. */
  lemma {:induction false} PriceReported(ls: seq<Listing>, side: Side, itemId: string, j: nat, a: int)
    requires Prices(ls, side, itemId).Success?
    requires j < |ls| && ListingPrice(ls[j], side, itemId) == Success(Some(a))
    ensures a in Prices(ls, side, itemId).value
  {
    if j > 0 {
      assert ls[1..][j - 1] == ls[j];
      PriceReported(ls[1..], side, itemId, j - 1, a);
    }
  }

  /** A listing with its two sides exchanged. */
  function Swap(l: Listing): Listing {
    Listing(l.theirItems, l.yourItems)
  }

  function SwapAll(ls: seq<Listing>): (r: seq<Listing>)
    ensures |r| == |ls|
  {
    if |ls| == 0 then [] else [Swap(ls[0])] + SwapAll(ls[1..])
  }

  /** Buy offers are the sell offers of the listings with their sides exchanged. */
  lemma {:induction false} BuyIsSwappedSell(ls: seq<Listing>, itemId: string)
    ensures Prices(ls, Buy, itemId) == Prices(SwapAll(ls), Sell, itemId)
  {
    if |ls| > 0 {
      assert SwapAll(ls)[0] == Swap(ls[0]);
      assert SwapAll(ls)[1..] == SwapAll(ls[1..]);
      BuyIsSwappedSell(ls[1..], itemId);
    }
  }
}
