# Offer aggregation of the `prosper` trading-price tool

`prosper` is a command-line tool. It reads a trading website's listing pages and reports statistics on the prices at which an item is offered. Its `sell-offers` and `buy-offers` commands run one rule over every trade listing on a page. A listing has two ordered rows of item links: "your items" and "their items".

- The rule searches one row for the requested item id. If several links match, the last one wins.
- It takes the link at the same position in the other row.
- It keeps that link's amount only when the link is the key (item id `496`) and shows an amount.
- The kept amounts form the price list. The tool reports the minimum and maximum of that list and how often each occurs.

A link's item id is read from its href with the pattern `\?filterItem=(\d*)&`. The scan reads every link of the searched row and the one link paired with the match. When an href it reads lacks the pattern, the program throws and the scan ends without a report. Links it does not read throw nothing.

This project models that rule in Dafny and proves its properties. The files are:

- `wrappers.dfy` (module `Wrappers`): `Option` and `Result`.
- `item_ids.dfy` (module `ItemIds`): the href pattern as functions, with its leftmost-match semantics proved.
- `item_id_examples.dfy` (module `ItemIdExamples`): concrete hrefs and what the pattern returns for them.
- `price_stats.dfy` (module `PriceStats`): minimum, maximum and occurrence counts.
- `offers.dfy` (module `Offers`): listings as data; reference functions `LastMatch`, `ListingPrice` and `Prices`; lemmas about them.
- `commands.dfy` (module `Commands`): the two scan loops as methods, proved equal to the reference functions, and the two commands.

A thrown exception is modelled as `Failure(href)`, where `href` is the first href read that lacks the pattern. Sell offers search "your items" and take the price from "their items". Buy offers do the reverse (`Side`).

## Model

| member | source | states |
|---|---|---|
| ItemIds.DigitRun | index.js:92 | the greedy `\d*` takes a prefix of the input that is all digits and is followed by a non-digit or by the end |
| ItemIds.DigitRunStops | index.js:92 | digits followed by a non-digit are exactly what `\d*` consumes, so backtracking cannot yield another capture before `&` |
| ItemIds.MatchAt | index.js:92 | the pattern tried at one position; any capture it returns is the prefix, then digits, then `&` standing there (its own ensures). MatchAtCorrect adds the converse |
| ItemIds.SearchFrom | index.js:92 | the leftmost match at or after a position; any capture is a run of ASCII digits (its own ensures). SearchFromSound and SearchFromComplete show that it returns the capture at the first matching position |
| ItemIds.ExtractItemId | index.js:92 | `href.match(/\?filterItem=(\d*)&/)[1]`: a capture is a possibly empty run of ASCII digits (its own ensures). It is the capture of the leftmost match, and None exactly where `match` is null (ExtractIsLeftmostMatch, ExtractFailsIffNoMatch) |
| ItemIds.SearchFromSound | index.js:92 | a capture found from a position comes from a position at or after it, with no match in between |
| ItemIds.SearchFromComplete | index.js:92 | given a matching position with no match before it, the search returns that position's capture |
| ItemIds.SearchFromFails | index.js:92 | the search from a position finds nothing exactly when no later position matches |
| ItemIds.MatchAtCorrect | index.js:92 | trying the pattern at a position gives capture `d` if and only if `?filterItem=`, then the digits `d`, then `&` stand there |
| ItemIds.MatchIsUnique | index.js:92 | at a given position the pattern has at most one capture |
| ItemIds.ExtractIsLeftmostMatch | index.js:92 | the extracted id is `d` if and only if the pattern matches with capture `d` at some position and at no earlier position |
| ItemIds.ExtractFailsIffNoMatch | index.js:92 | extraction fails (`match` returns null and `[1]` throws) if and only if the pattern matches nowhere in the href |
| ItemIdExamples.KeyLink | index.js:100 | `?filterItem=496&p=1` yields the key id `496` |
| ItemIdExamples.EmptyId | index.js:92 | `?filterItem=&` yields the empty id |
| ItemIdExamples.NoEarlyMatch | index.js:92 | in `?filterItem=7?filterItem=8&` the pattern matches at none of the first 13 positions |
| ItemIdExamples.SecondOccurrence | index.js:92 | the first `?filterItem=` not followed by digits and `&` is skipped, and the next one that is gives the id |
| ItemIdExamples.NoAmpersand | index.js:92 | `?filterItem=12` without a closing `&` has no id, so the access throws |
| PriceStats.Count | index.js:184 | the count of a value is at most the list length, and positive exactly when the value occurs |
| PriceStats.Min | index.js:183 | `math.min` of a non-empty list is an element of it, at most every element |
| PriceStats.Max | index.js:193 | `math.max` of a non-empty list is an element of it, at least every element |
| PriceStats.LogPriceStats | index.js:178-196 | nothing is computed for an empty list. Otherwise min and max are the list's extremes, each count is the multiplicity of its value in the list and lies between 1 and the length, and the offer count is the length |
| PriceStats.CountIsMultiplicity | index.js:194 | the `filter(...).length` count equals the value's multiplicity in the multiset of prices |
| PriceStats.CountAll | index.js:184 | a value's count equals the length exactly when every price is that value |
| PriceStats.CountTwoValues | index.js:184 | two distinct values have counts summing to at most the length |
| PriceStats.MinEqualsMaxIffUniform | index.js:183-194 | min equals max exactly when the min count, and likewise the max count, is the whole list |
| PriceStats.MinAndMaxCountsDisjoint | index.js:183-194 | with distinct min and max, the min count plus the max count is at most the length |
| Offers.LastMatch | index.js:89-93 | the `sellIndex` search: the last index whose id is the requested one, or no index, or the first href without an id (LastMatchFails, LastMatchFound, LastMatchNothing) |
| Offers.LastMatchFails | index.js:91-93 | the index search throws exactly when some link's href has no id, and the error is the first such href |
| Offers.LastMatchFound | index.js:89-93 | the search yields index `i` exactly when every href has an id, link `i` has the requested id, and no later link has it |
| Offers.LastMatchNothing | index.js:89-93 | the search yields no index exactly when every href has an id and none is the requested one |
| Offers.ListingPrice | index.js:87-105 | one listing's contribution: the amount of the key slot paired with the last match, or nothing, or the href whose missing id throws (ListingPriceSpec and the five lemmas below it) |
| Offers.ListingPriceSpec | index.js:87-105 | a listing yields price `a` exactly when the requested item's last link is paired with a key link whose amount is `a` |
| Offers.NoMatchAddsNothing | index.js:96-98 | no link of the searched row has the requested id: the listing adds no price |
| Offers.PastEndAddsNothing | index.js:96-98 | the matched index is past the end of the other row: the listing adds no price |
| Offers.NotKeysAddsNothing | index.js:100 | the paired link is an item other than `496`: the listing adds no price |
| Offers.NoAmountAddsNothing | index.js:102-103 | the paired key link has no amount element: the listing adds no price |
| Offers.MalformedPairThrows | index.js:100 | the paired link's href has no id: the scan throws with that href |
| Offers.Prices | index.js:85-105 | the whole scan: one price per accepted listing in listing order, or the first listing's throw (PricesAppend, PricesAtMostOnePerListing, PricesFail, PriceOrigin, PriceReported) |
| Offers.PricesAppend | index.js:85-105 | scanning listings `a + b` gives the prices of `a` followed by those of `b`, and a throw in `a` wins, so listing order is kept |
| Offers.PricesAtMostOnePerListing | index.js:87-105 | a successful scan yields at most one price per listing |
| Offers.PricesFail | index.js:87-105 | the scan throws exactly when some listing throws, and with the error of the first listing that does |
| Offers.PriceOrigin | index.js:104 | every reported price is the price of some listing |
| Offers.PriceReported | index.js:104 | the price of every listing that yields one is reported |
| Offers.BuyIsSwappedSell | index.js:142-160 | buy prices equal the sell prices of the same listings with "your items" and "their items" exchanged |
| Commands.FindSellIndex | index.js:89-93 | the `forEach` that overwrites `sellIndex` at every match computes `LastMatch`, including its throw |
| Commands.ScanOffers | index.js:84-105 | the listing loop with its early returns and `push` computes `Prices`, including its throw |
| Commands.Conclude | index.js:106-112 | a throw ends the command; an empty price list gives "no matching offers"; otherwise the statistics of the non-empty price list are reported |
| Commands.SellOffers | index.js:81-113 | `sell-offers` ends as `Conclude` says, with "your items" searched |
| Commands.BuyOffers | index.js:136-169 | `buy-offers` ends as `Conclude` says, with "their items" searched |

## Left out

- HTTP requests, query-string construction and the base URL (index.js:19, 25, 44, 72-81, 127-136) are network I/O and foreign library calls. The model starts from the listings of an already fetched page.
- HTML parsing and CSS selector queries are left out. A listing is given as two sequences of links, each with an href string and an optional amount. The href is taken as the `href` property returns it.
- `parseInt` of the amount element (index.js:104, 159) is left out. An amount is already an integer, so whitespace, signs and `NaN` are not modelled.
- The requested item id is a string compared by strict equality. Whether the argument parser passes the `<item-id>` argument on as a string is outside the model.
- Mean, median and mode (index.js:186-191) come from the `mathjs` library and are floating point. The mode count at index.js:190 depends on how that library orders tied modes. These are not modelled.
- `listCategories`, `listItems` (index.js:24-59), the page title from `option:checked` (index.js:108-110, 164-166), the CLI setup (index.js:199-244), spinners, colours and console output only print or depend on the DOM. They are not modelled.
- `logPriceStats` is declared with the parameters `(title, prices)` (index.js:178) but called with one argument (index.js:112, 168). As written, `prices` is then undefined and `prices.length` throws. The model computes the statistics from the declared `prices` list, which is what the function is evidently meant to do.
- The scans over the page's listings and links use immutable sequences. The program only reads those DOM collections, so no update in place is lost.
