# Price tracker — a Dafny model

`price_tracker.py` runs as a periodic job with two halves.

- **Retailer half.** It watches retailer product pages and alerts when a product's price falls a configured percentage below its baseline.
- **Used-market half.** It scans used-market search pages and alerts on listings that pass keyword filters and are either at or below an absolute ceiling or a configured percentage below MSRP.

Between runs it persists its state:
- for each product: the baseline, the last 300 price samples, the last price, the url and the display name;
- for each search: the sorted list of urls it has already alerted on, cut to its last 2000.

This project models the core of that job and proves properties about it.

- `price_parser.dfy` (module `PriceParser`) is the price text parser `extract_price_number`. It works in three steps:
  - keep the digits, dots and commas;
  - treat whichever separator comes last as the decimal point;
  - read the first `\d+(?:\.\d+)?` number.
  The module also holds the percent-drop arithmetic `pct_drop`.
- `product_price.dfy` (module `ProductPrice`) is the retailer strategy chain `fetch_product_price`, with `jsonld_prices` and `og_price`. The order is:
  1. the product's own pattern;
  2. JSON-LD offer prices, taking the least positive one;
  3. a non-zero Open Graph price;
  4. the CSS selector's text.
- `listings.dfy` (module `Listings`) covers three things:
  - the keyword filter `text_ok`;
  - the card reading of `extract_items`: strip the title, make the href absolute, parse the price, and keep a card with a title or a url;
  - the candidate loop of `search_used_market`: filter, skip urls already seen, then fire on the ceiling or the MSRP percentage.
- `ledger.dfy` (module `StateLedger`) is the state `main` mutates, as a class `Ledger` with two fields, `products` and `searches`. Its methods are one product's turn, one search's turn and the two loops of `main`. The module proves what the source promises of the state:
  - a configured baseline is reapplied on every reading; without one, the stored baseline is kept, or the first reading becomes it;
  - the history is the last 300 samples;
  - an alert fires exactly when the drop meets the threshold;
  - the stored seen list is the sorted set cut to its last 2000;
  - while a search's seen set holds at most 2000 urls, a listing with a url is not reported again in a later run. Above that, the smallest urls are evicted and may alert again (`EvictionForgets`). Within one run, a listing that appears twice is reported twice (`RepeatedUrlMatchesTwice`).
- `seqs.dfy` (module `Seqs`) holds the sequence tools. These are the "keep the last n" cut, subsequences, the code-point order on strings that Python's `sorted` uses, and an insertion sort that builds the sorted list of a set.
- `wrappers.dfy` holds `Option`.

Python floats are modelled as exact reals and `\d` as the ASCII digits.

Some consequences of the code that a reader might not expect:

- **A lone comma.** `"$1,299"` parses to 1.299, not 1299. The only separator is a comma, so it is the last one and is read as the decimal point (`LoneCommaIsDecimalPoint`).
- **JSON-LD with no positive price.** When the JSON-LD captures yield prices but none is positive, the chain returns nothing. It does not fall back to Open Graph or the selector (`StructuredDataDecides`).
- **An Open Graph price of 0 or none.** Both are falsy and fall through to the selector (`FalsyOgFallsThrough`).
- **A minus sign.** It is dropped by the cleaning step, so prices are never negative (`ExtractPriceNumber`).

## Model

| member | source | states |
|---|---|---|
| `PriceParser.Clean` | price_tracker.py:62 | The cleaned text is no longer than the input, holds only digits, `.` and `,`, and holds every such character of the input. |
| `PriceParser.CleanConcat` | price_tracker.py:62 | Cleaning a concatenation is the concatenation of the cleaned parts, so the kept characters stay in order with their repetitions. |
| `PriceParser.CleanChar` | price_tracker.py:62 | One character is kept exactly when it is a digit, `.` or `,`. With `CleanConcat` this pins the cleaned text. |
| `PriceParser.LastIndexOf` | price_tracker.py:65-66 | `rfind` is -1 or an index of the character, and no later index holds it. |
| `PriceParser.Remove` | price_tracker.py:68-70 | `replace(c, "")` leaves no `c` and keeps every other character that occurs. |
| `PriceParser.RemoveConcat` | price_tracker.py:68-70 | Removing from a concatenation is the concatenation of the removals, so order and repetition are kept. |
| `PriceParser.RemoveChar` | price_tracker.py:68-70 | One character is dropped exactly when it is the removed one. With `RemoveConcat` this pins `replace(c, "")`. |
| `PriceParser.Replace` | price_tracker.py:68 | `replace(a, b)` changes exactly the occurrences of `a`, position by position. |
| `PriceParser.Normalize` | price_tracker.py:65-70 | After the separator rule no comma is left, and a digit occurs exactly when it occurred before. |
| `PriceParser.TokenAt` | price_tracker.py:71 | The greedy match at a digit is a non-empty digit run that ends at a non-digit. A fraction is taken exactly when a point and a digit follow, and then greedily. The match is a prefix of the text. |
| `PriceParser.SearchNumber` | price_tracker.py:71 | `re.search` finds nothing exactly when the text has no digit. A match is the greedy match (`TokenAt`) at the leftmost digit. |
| `PriceParser.TokenValue` | price_tracker.py:72 | `float(m.group(0))` lies between the whole part and the whole part plus one. |
| `PriceParser.CleanKeepsDigits` | price_tracker.py:62 | The cleaned text has a digit exactly when the input has one. |
| `PriceParser.NormalizeKeepsDigits` | price_tracker.py:67-70 | The separator rule keeps every digit. |
| `PriceParser.ExtractPriceNumber` | price_tracker.py:59-72 | None for empty text, and a price exactly when the text holds a digit. A price is never negative. |
| `PriceParser.ExtractReadsLeftmost` | price_tracker.py:59-72 | A price is the value of the greedy `\d+(\.\d+)?` match at the leftmost digit of the cleaned and normalised text. |
| `PriceParser.SeparatorConventionIrrelevant` | price_tracker.py:65-70 | Exchanging `.` and `,` throughout any text does not change the price read. |
| `PriceParser.NormalizeSwap` | price_tracker.py:65-70 | The separator rule normalises a swapped text to the same string. |
| `PriceParser.CleanSwap` | price_tracker.py:62 | Cleaning commutes with exchanging `.` and `,`. |
| `PriceParser.LastIndexSwap` | price_tracker.py:65-66 | After the exchange, the last comma is where the last point was, and the last point where the last comma was. |
| `PriceParser.RemoveSwap` | price_tracker.py:68-70 | The two branches of the separator rule map onto each other under the exchange. |
| `PriceParser.ParseRender` | price_tracker.py:59-72 | Round trip: the text of any number `d+(.d+)?` parses back to exactly its value. |
| `PriceParser.NormalizeRender` | price_tracker.py:62-70 | The text of a number is unchanged by cleaning and normalising. |
| `PriceParser.TokenAtRender` | price_tracker.py:71 | The search over the text of a number matches that whole number. |
| `PriceParser.SearchExamples` | price_tracker.py:71 | The search reads `2747.00` from "2747.00" and `1.299` from "1.299". |
| `PriceParser.UsStyleExample` | price_tracker.py:59-72 | `"2,747.00"` parses to 2747. |
| `PriceParser.EuropeanStyleExample` | price_tracker.py:59-72 | `"2.747,00"` parses to 2747. |
| `PriceParser.LoneCommaIsDecimalPoint` | price_tracker.py:65-68 | `"$1,299"` parses to 1.299, because a lone comma is the decimal point. |
| `PriceParser.NoPriceExamples` | price_tracker.py:60-64 | `""`, `"abc"` and `"..,"` give no price. |
| `PriceParser.PctDrop` | price_tracker.py:74-77 | 0 for a non-positive old price. Otherwise positive exactly for a fall and negative exactly for a rise, and at most 100 for a non-negative new price. |
| `PriceParser.DropMeetsThreshold` | price_tracker.py:74-77 | Against a positive old price, the drop meets threshold `t` exactly when the new price is at most `100 - t` percent of it. |
| `PriceParser.PctDropExamples` | price_tracker.py:74-77 | 100→90 is 10, 100→110 is -10, 0→50 is 0, 1000→899 is 10.1 and 500→440 is 12. |
| `ProductPrice.ParsedPrices` | price_tracker.py:96-99 | No more prices than captures, and none of them negative. |
| `ProductPrice.ParsedPricesMember` | price_tracker.py:95-99 | A value is among the parsed prices exactly when some capture parses to it. |
| `ProductPrice.ParsedPricesAppend` | price_tracker.py:95-99 | The prices of two runs of captures are the prices of the first followed by those of the second. |
| `ProductPrice.JsonLdPrices` | price_tracker.py:89-100 | The loop appends exactly the value of each capture that parses, in order. |
| `ProductPrice.DigitLedCapturesAllParse` | price_tracker.py:96-98 | Every capture the JSON-LD pattern can produce starts with a digit and so yields a price. |
| `ProductPrice.MinPositive` | price_tracker.py:126 | None exactly when no price is positive. Otherwise a positive element of the list that is at most every positive element. |
| `ProductPrice.MinPositiveExample` | price_tracker.py:126 | From [50, 30, -5] the least positive price is 30. |
| `ProductPrice.OgPrice` | price_tracker.py:102-106 | A price comes only from the captured content. No price from present content means it holds no digit. |
| `ProductPrice.FetchProductPrice` | price_tracker.py:109-140 | The result is never negative. Without a pattern or selector it is positive. Any result was read by one of the four strategies. |
| `ProductPrice.PatternWins` | price_tracker.py:115-119 | A matched pattern decides alone, whatever the rest of the page holds. |
| `ProductPrice.StructuredDataDecides` | price_tracker.py:122-126 | JSON-LD that yields prices decides alone, and the result is `MinPositive` of them: the least positive price, or nothing when every price is 0, with no fallback. |
| `ProductPrice.FalsyOgFallsThrough` | price_tracker.py:127-138 | An Open Graph price that is absent or 0 hands over to the selector: the result is the selector text's price, or nothing without a selector. |
| `ProductPrice.OgBeforeSelector` | price_tracker.py:127-129 | A non-zero Open Graph price wins, whatever the selector would read. |
| `Listings.StripLeading` | price_tracker.py:163 | The result is a suffix, everything dropped is whitespace, and it does not start with whitespace. |
| `Listings.StripTrailing` | price_tracker.py:163 | The result is a prefix, everything dropped is whitespace, and it does not end with whitespace. |
| `Listings.Strip` | price_tracker.py:163 | Neither end of the result is whitespace. It is empty exactly when the input is all whitespace. |
| `Listings.StripSlice` | price_tracker.py:163 | The result is the input with exactly a whitespace prefix and a whitespace suffix cut off. |
| `Listings.LowerStr` | price_tracker.py:144 | Lower-casing keeps the length and maps each character. |
| `Listings.Lower` | price_tracker.py:144 | An ASCII capital becomes the lower-case letter 32 code points above it. Every other character is unchanged. |
| `Listings.LowerStrIdempotent` | price_tracker.py:144-145 | Lower-casing twice is lower-casing once. |
| `Listings.Contains` | price_tracker.py:145-147 | `k in s` holds exactly when `k` occurs at some position of `s`. |
| `Listings.AllOccur` | price_tracker.py:145 | `all(...)` holds exactly when every lower-cased keyword occurs. |
| `Listings.AnyOccurs` | price_tracker.py:147 | `any(...)` holds exactly when some lower-cased keyword occurs. |
| `Listings.TextOk` | price_tracker.py:143-149 | Holds exactly when every include keyword and no exclude keyword occurs in the lower-cased title. Empty lists impose nothing. |
| `Listings.TextOkIgnoresCase` | price_tracker.py:144 | The filter gives the same answer for a title and its lower-cased form. |
| `Listings.KeywordExcludedExample` | price_tracker.py:143-149 | "6'7 surfboard 90L" fails include ["6'7"] with exclude ["90L"]. |
| `Listings.KeywordIncludedExample` | price_tracker.py:143-149 | "6'7 110L" passes include ["6'7"] with exclude ["90L"]. |
| `Listings.TextOkSingle` | price_tracker.py:143-149 | With one include and one exclude keyword, the filter passes exactly when the first occurs and the second does not, ignoring case. |
| `Listings.JoinRoot` | price_tracker.py:175-177 | Against an `http://` or `https://` base the result is the base up to the end of its authority (the first `/`, `?` or `#` after the scheme, or the end) followed by the href. Any other base leaves the href unchanged. |
| `Listings.NormaliseHref` | price_tracker.py:171-178 | A `//` href becomes `https:` + href. A root-relative href against a base starting with "http" is joined by `JoinRoot`. Every other href is kept unchanged. Empty exactly when the href is empty, and never protocol-relative. |
| `Listings.ReadCard` | price_tracker.py:155-188 | The title is the stripped title text, the url the normalised stripped href, and the price the parsed price text. Each is "", "" or None when its sub-selector found nothing. The title is trimmed, the url not protocol-relative, and the price never negative. |
| `Listings.ReadAllAt` | price_tracker.py:154-188 | The i-th card read is the reading of the i-th card. |
| `Listings.Filled` | price_tracker.py:190-191 | Every item kept has a title or a url. |
| `Listings.ExtractItems` | price_tracker.py:151-192 | The loop returns exactly the kept readings of the cards. |
| `Listings.KeptItems` | price_tracker.py:190-192 | No more items than cards, and every item kept has a title or a url. |
| `Listings.KeptItemsInOrder` | price_tracker.py:154-192 | The items are the read cards in document order, some left out. |
| `Listings.KeptItemsComplete` | price_tracker.py:190-191 | Every card with a title or a url is among the items. |
| `Listings.Classify` | price_tracker.py:205-223 | A candidate matches exactly when three things hold: it passes the filter; its url is empty or unseen; it fires on the ceiling or the MSRP drop. The ceiling takes precedence, a ceiling reason carries the configured `alert_below`, and a percent reason meets the threshold. |
| `Listings.SearchUsedMarket` | price_tracker.py:194-225 | The candidate loop with its `continue`s returns exactly the classified candidates, in order. |
| `Listings.MatchesOf` | price_tracker.py:205-225 | No more matches than candidates. Every match passes the keyword filter and has an empty or unseen url. |
| `Listings.MatchesSound` | price_tracker.py:205-223 | Every result is the classification of one of the candidates. |
| `Listings.MatchesComplete` | price_tracker.py:205-223 | Every candidate that classifies is among the results. |
| `Listings.MatchesInOrder` | price_tracker.py:205-223 | The results keep the candidates' order. |
| `Listings.MatchesExact` | price_tracker.py:205-223 | Soundness, completeness and order together. |
| `Listings.EmptyUrlNeverDeduped` | price_tracker.py:208-209 | A listing without a url is never held back by the seen set. |
| `Listings.RepeatedUrlMatchesTwice` | price_tracker.py:205-223 | Seen is not updated inside the loop, so a repeated matching listing is reported twice. |
| `Seqs.KeepLast` | price_tracker.py:286 | `s[-n:]`: min(n, len) elements, the last ones of `s` in order. |
| `Seqs.KeepLastAppend` | price_tracker.py:283-286 | Cutting, appending and cutting again equals appending and then cutting once. |
| `Seqs.SortedList` | price_tracker.py:334 | `sorted(list(seen))`: strictly sorted and holding exactly the set. |
| `Seqs.SortedOf` | price_tracker.py:334 | The specification of `sorted(list(seen))`: a strictly sorted list holding exactly the set. |
| `Seqs.Below` | price_tracker.py:334 | The string order `sorted` uses is strict: no string sorts before itself. |
| `Seqs.BelowPrefix` | price_tracker.py:334 | A proper prefix sorts before every extension of it. |
| `Seqs.SortedCardinality` | price_tracker.py:334 | A strictly sorted list has as many elements as its set. |
| `Seqs.BelowTotal` | price_tracker.py:334 | Python's string order is total. |
| `Seqs.BelowTransitive` | price_tracker.py:334 | Python's string order is transitive. |
| `StateLedger.ConfigKey` | price_tracker.py:255 | `cfg.get("id") or cfg["url"]`, shared by products and searches: a non-empty configured id is the key, otherwise the url. The key is empty exactly when both are. |
| `StateLedger.ProductId` | price_tracker.py:255 | A product's record key: its non-empty configured id, otherwise its url. Empty exactly when both are. |
| `StateLedger.SearchId` | price_tracker.py:309 | A search's record key: its non-empty configured id, otherwise its url. Empty exactly when both are. |
| `StateLedger.DisplayName` | price_tracker.py:290 | `prod.get("name", pid)`: the configured name if present, otherwise the product key. |
| `StateLedger.DropNeeded` | price_tracker.py:277 | The product's own `drop_percent`, else the configured default, else 10. |
| `StateLedger.EffectiveBaseline` | price_tracker.py:271-275 | A configured baseline wins; else the stored one; else the price. It is not negative when none of those is. |
| `StateLedger.Recorded` | price_tracker.py:283-291 | One reading sets the baseline to `EffectiveBaseline`, ends the history with the new sample within 300 samples, and records the price, the url and the display name. |
| `StateLedger.Fires` | price_tracker.py:293 | Against a baseline that is not positive the drop is 0, so the alert fires exactly when the threshold is at most 0. |
| `StateLedger.RecordAll` | price_tracker.py:283-291 | No readings leave the record unchanged. Otherwise the last price is the last reading's, and the url and name are the product's. |
| `StateLedger.RecordStep` | price_tracker.py:283-286 | The first reading appends its sample and cuts to 300, and the rest of the history continues from that record. |
| `StateLedger.RecordAllHistory` | price_tracker.py:283-286 | The history after a run of readings is `HistoryAfter`: append and cut, sample by sample. |
| `StateLedger.HistoryAfterKeepsLast` | price_tracker.py:283-286 | Appending and cutting sample by sample equals appending all of them and cutting once. |
| `StateLedger.HistoryKeepsLast` | price_tracker.py:283-291 | After any non-empty run of readings, the history is the last 300 samples of the old history followed by the new ones. |
| `StateLedger.HistoryCapExample` | price_tracker.py:283-291 | 310 readings of a new product leave the latest 300 in order. |
| `StateLedger.BaselineSticky` | price_tracker.py:271-275 | A configured baseline is always the baseline. Otherwise the stored baseline is kept, or the first reading becomes it. |
| `StateLedger.FirstReadingFiresOnlyForNoThreshold` | price_tracker.py:273-278 | A first reading without a configured baseline alerts only for a threshold of at most 0. |
| `StateLedger.FiresIffPriceLowEnough` | price_tracker.py:277-293 | The alert fires exactly when the price is at most `100 - threshold` percent of a positive baseline. |
| `StateLedger.RetailTriggerExample` | price_tracker.py:277-293 | Baseline 1000 with the default 10%: 899 fires and 901 does not. |
| `StateLedger.TwoRunScenario` | price_tracker.py:271-293 | Read at 500 and then at 440: the baseline stays 500, only the second run alerts, and the history holds both samples. |
| `StateLedger.KeepLastSorted` | price_tracker.py:334 | The last 2000 of a sorted list are sorted. |
| `StateLedger.KeepLastDropsSmallest` | price_tracker.py:334 | Every url the cut drops sorts before every url it keeps. |
| `StateLedger.StoreSeen` | price_tracker.py:334 | The stored list is sorted, drawn from the set, as long as the set up to 2000, and keeps the greatest urls. |
| `StateLedger.StoredSeenUnique` | price_tracker.py:334 | The stored list is determined by the seen set. |
| `StateLedger.StoredSeenComplete` | price_tracker.py:334 | Below the cap the stored list holds the whole seen set. |
| `StateLedger.DedupAcrossRuns` | price_tracker.py:208-209 | Below the cap, searching the same candidates again reports no listing with a url. |
| `StateLedger.StoredSeenOf` | price_tracker.py:334 | The stored list of a seen set is the one `IsStoredSeen` characterises. |
| `StateLedger.EvictionForgets` | price_tracker.py:311-334 | Above the cap, the smallest url of the seen set is not stored. A listing with that url is classified next run as if nothing had been seen, so it can alert again. |
| `StateLedger.MatchedUrls` | price_tracker.py:321-325 | The urls added are exactly the non-empty urls of the matches; the empty url is never added. |
| `StateLedger.SeenAfter` | price_tracker.py:311-325 | The seen set afterwards holds the stored urls and every non-empty matched url, and nothing else; so it holds the empty url only when it was stored. |
| `StateLedger.AddMatchedUrls` | price_tracker.py:321-325 | The loop adds exactly the non-empty urls of the matches. |
| `StateLedger.MatchesReportable` | price_tracker.py:205-223 | Every reported match passes the keyword filter and fires one of the rules. |
| `StateLedger.AfterReading` | price_tracker.py:254-291 | One product's turn adds its id to the keys and leaves every other record unchanged. |
| `StateLedger.AlertFor` | price_tracker.py:277-293 | An alert exists exactly for a reading that fires. It reports the price, the effective baseline, the drop from it and a threshold the drop meets. |
| `StateLedger.AfterReadingValid` | price_tracker.py:271-291 | Non-negative readings and baselines keep every record valid: non-negative baseline and prices, history within 300. |
| `StateLedger.PriceOf` | price_tracker.py:259-267 | A run's reading is the strategy chain on its page, or none when the fetch failed. A reading is never negative. |
| `StateLedger.ProductsAfter` | price_tracker.py:254-291 | The records after a sequence of products keep every old key and have a record for every product run. |
| `StateLedger.ProductsAfterStep` | price_tracker.py:254-293 | One more product applies `AfterReading` to the records as they stood, and appends that product's `AlertFor`, if any, to the alerts. |
| `StateLedger.ProductsAfterValid` | price_tracker.py:254-291 | A sequence of products keeps every record valid when no configured baseline is negative. |
| `StateLedger.AlertsOf` | price_tracker.py:277-293 | At most one alert per product run. |
| `StateLedger.AlertsOfSound` | price_tracker.py:277-293 | Every alert of the retailer loop carries the drop from its baseline, the drop meets its threshold, and the price is not negative. |
| `StateLedger.AfterSearch` | price_tracker.py:309-334 | One search's bookkeeping adds its id to the keys and leaves every other record unchanged. A completed search stores the seen set plus the matched urls, sorted and cut to 2000. |
| `StateLedger.ProductsAfterFrame` | price_tracker.py:254-291 | After a sequence of products, the keys are the old keys plus every product id, and every other record is unchanged. |
| `StateLedger.SearchesAfterFrame` | price_tracker.py:308-334 | After a sequence of searches, the keys are the old keys plus every search id, and every other record is unchanged. |
| `StateLedger.MsrpArgument` | price_tracker.py:307-314 | `msrp if msrp > 0 else None`: a present argument is the configured MSRP and positive. It is absent exactly when the setting is absent or not positive. |
| `StateLedger.SearchMatches` | price_tracker.py:308-325 | No matches exactly when the fetch failed. Every match is reportable under the search's rule and has a url the stored list does not hold. |
| `StateLedger.SearchesAfter` | price_tracker.py:308-334 | The records after a sequence of searches keep every old key and have a record for every search run. |
| `StateLedger.FoundOf` | price_tracker.py:306-334 | One list of matches per search run. |
| `StateLedger.Ledger.RecordProduct` | price_tracker.py:255-293 | One product's turn, done in place. The record is created even without a reading. A reading updates baseline, history, price, url and name. The alert is the one `AlertFor` gives. The ledger invariant is kept. |
| `StateLedger.Ledger.RecordSearch` | price_tracker.py:309-334 | One search's bookkeeping, done in place: the new searches map is `AfterSearch`. The record is always created, and a completed search stores the seen set plus the matched urls, sorted and cut to 2000. The products are unchanged and the invariant is kept. |
| `StateLedger.Ledger.RunProducts` | price_tracker.py:254-304 | The loop over the products. The new products map is `AfterReading` applied run by run, and the alerts are the `AlertFor` of each run, in order. Every product gets a record, and every alert's drop is its drop from the baseline and meets its threshold. The invariant is kept when configured baselines are not negative. |
| `StateLedger.Ledger.RunSearch` | price_tracker.py:308-334 | One search's turn. The matches are the candidate loop over the kept cards against the stored seen set, and each is reportable. The new searches map is `AfterSearch` with those matches, or with none for a failed fetch. |
| `StateLedger.Ledger.RunSearches` | price_tracker.py:306-334 | The loop over the searches. The new searches map is `AfterSearch` applied run by run. The i-th result is the matches of the i-th search against the state left by the searches before it. Every reported match passes its search's filter and rule, with only a positive MSRP used. The invariant is kept. |

## Left out

- Network and file I/O are not modelled: `fetch_text`, `fetch_doc`, `load_yaml`, `load_state` and `save_state`. A fetched product page is given as the strings its strategies captured (`PageCaptures`). The source fetches the page twice: the pattern's capture comes from the first fetch, and the JSON-LD, Open Graph and selector captures from the second. The captures are independent inputs, so this loses nothing. A fetched search page is given as the strings each card's sub-selectors yielded (`RawCard`). A fetch that raised is `None`.
- Sending email is not modelled: `send_email`, the SMTP configuration check, and the subject and body formatting. Alerts are returned as values (`RetailAlert`, `Match`), and a match's reason is the structured `Reason` rather than its formatted text.
- Logging, argument parsing, the session headers and `time.time()` are not modelled. The clock is a parameter (`now`).
- The HTML parser, CSS selectors and the regular expressions over the page are not modelled. This covers the JSON-LD block and key patterns, the Open Graph and Twitter patterns, and a product's own `price_regex`. Their captures are inputs, and a group that took no part reads as the empty string.
- `urljoin` is reduced to root-relative links. An `http://` or `https://` base keeps its scheme and authority and takes the href as the path. A base that starts with "http" but with neither scheme leaves the href unchanged.
- Floating-point rounding is not modelled: prices and percentages are exact reals.
- `str.lower` is modelled on ASCII letters only. `\d` is modelled as the ASCII digits. `str.strip` removes the characters Python's `str.isspace` accepts.
- A configured baseline that is a boolean counts as a number in Python. The model takes a configured baseline to be a number or absent.
- A product's `drop_percent` set to null makes `float(None)` raise and stop the run. So does a `default_drop_percent` set to null, for a product without its own `drop_percent`. The model treats both as absent, so `DropNeeded` falls back to the default or to 10.
- Exceptions inside `extract_items`' per-card blocks are swallowed by the source. The model represents them as a missing sub-selector result.
- `StateLedger.HistoryKeepsLast` is stated for a non-empty run of readings only. A loaded history longer than 300 is cut only when a reading is appended to it.
