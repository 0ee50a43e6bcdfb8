# Lead finder: a verified model of the harvest core

`lead_finder.py` is a small Flask service. It searches Google Maps for businesses of a niche in a city, using a headless Chrome driven by Selenium. From each result listing it assembles a lead record: name, phone, website, rating, review count and Maps URL. Each lead goes into the SQLite table `leads`, keyed by `(business_name, city)`, and can be fetched back newest first.

This project models the parts of that file that are deterministic once the browser and the database engine are abstracted away, and proves what they promise.

- **Text** (`text.dfy`): ASCII digits and whitespace, `str.strip()`, and the value of a decimal numeral (`DecimalValue`, what `int()` computes).
- **Phone** (`phone.dfy`): the regex `\(?([0-9]{3})\)?[-.\s]?([0-9]{3})[-.\s]?([0-9]{4})`. It is written as a token list and matched by a greedy parser. The parser is proved sound, and complete for this pattern, so the match at an index is unique. On top of it sit a leftmost search (`re.search`) and the `(NNN) NNN-NNNN` reformatting.
- **Reviews** (`reviews.dfy`): the regex `\((\d+)\)`, with its leftmost search and the group's integer.
- **SearchUrl** (`search_url.dfy`): the query `"{niche} in {city}, {province}"` and the Maps search URL, in which every space becomes `+`.
- **Listing** (`listing.dfy`): a result listing as a value. Every page lookup is either `Ok(value)` or `Raises`. This module also holds the field extractors and `extract_business_info`.
- **Table** (`table.dfy`): the `leads` table as a value:
  - rows in write order;
  - a logical clock for the `timestamp` column;
  - the `AUTOINCREMENT` counter for `id`;
  - `INSERT OR REPLACE` under `UNIQUE(business_name, city)`;
  - `ORDER BY timestamp DESC LIMIT ?`;
  - the 64-bit range that an integer bound to a statement must fit.
- **Harvest** (`harvest.dfy`): the value-level meaning of one `search_business` run:
  - Python's `elements[:max_leads]`;
  - the leads appended to `results`;
  - the table the successive saves leave behind.
- **Finder** (`finder.dfy`): the class `LeadFinder`. It holds the table in mutable fields; its methods are `SaveLeadToDb`, `GetLeadsFromDb` and `SearchBusiness`, with the harvest loop over the element slice. Each method is proved against the functions above.

Parameters of the model stand in for the browser and the engine:

| parameter | stands for |
|---|---|
| `load` | the browser's answer for a URL: load failed, timed out waiting for results, or the listed elements |
| `extract` | the outcome of extracting one element |
| `currentUrl` | the read of `driver.current_url` |
| `toFloat` | Python's `float()` |
| `engineOk`, `dbAccepts` | whether the database accepts a statement whose values can be bound |

## Model

| member | source | states |
|---|---|---|
| Text.Strip | lead_finder.py:129 | the result is the substring left once leading and trailing whitespace is removed; it neither starts nor ends with whitespace |
| Text.DecimalValueOfNumeral | lead_finder.py:171 | `DecimalValue` of the numeral `str(n)` writes is `n` |
| Phone.GreedySound | lead_finder.py:147 | a match the greedy engine returns really matches the token list at that index |
| Phone.GreedyComplete | lead_finder.py:147 | for an unambiguous token list, any match at an index is the one the greedy engine returns |
| Phone.PhonePatternUnambiguous | lead_finder.py:147 | the phone pattern is unambiguous: optional tokens cannot steal a character the next token needs |
| Phone.MatchGroupsWellFormed | lead_finder.py:147 | the three groups of a match are 3, 3 and 4 ASCII digits |
| Phone.MatchAtSpec | lead_finder.py:147 | the pattern matches at an index exactly when the engine at that index does, and then with those pieces only |
| Phone.SearchFromLeftmost | lead_finder.py:147 | the search from `i` reports a match, no match starts between `i` and it, and "none" means no index from `i` on matches |
| Phone.SearchLeftmost | lead_finder.py:147 | `re.search` gives the leftmost match, or none when the pattern occurs nowhere |
| Phone.FormatCanonical | lead_finder.py:148 | `f"({g1}) {g2}-{g3}"` is 14 characters with digits at the fixed places, and the groups read back from it |
| Phone.PhoneOfTextSpec | lead_finder.py:147-148 | a text's number is `''` exactly when the pattern occurs nowhere in it; otherwise it is canonical and formats the groups of the leftmost match |
| Phone.CanonicalMatches | lead_finder.py:147-148 | a canonical number is itself matched by the pattern at index 0 |
| Phone.PhoneOfTextIdempotent | lead_finder.py:147-148 | normalising an already normalised number gives it back |
| Reviews.CountAtSpec | lead_finder.py:170 | the attempt at an index succeeds exactly for the unique `(digits)` group starting there |
| Reviews.SearchCountFromLeftmost | lead_finder.py:170 | the search from `i` finds the leftmost `(digits)` group, or reports none when there is none |
| Reviews.ReviewsOfTextSpec | lead_finder.py:170-171 | `None` exactly when no `(digits)` group occurs; otherwise the value of the leftmost group's digits |
| Reviews.ReviewsRoundTrip | lead_finder.py:170-171 | `(n)` written after text without `(` reads back as `n`, whatever follows |
| SearchUrl.SearchQuery | lead_finder.py:91 | the query is the niche, `" in "`, the city, `", "`, the province, at those positions |
| SearchUrl.PlusForSpace | lead_finder.py:92 | the result has the same length, `+` wherever the input has a space, every other character unchanged, and no space |
| SearchUrl.PlusForSpaceInverse | lead_finder.py:92 | for input without `+`, turning `+` back into spaces recovers it |
| SearchUrl.SearchUrl | lead_finder.py:92 | the URL is the fixed Maps search prefix followed by the query with spaces replaced, and contains no space |
| SearchUrl.SearchUrlRecoversQuery | lead_finder.py:91-92 | when niche, city and province hold no `+`, the query is recovered from the URL |
| Listing.ScanPhones | lead_finder.py:144-151 | the scan gives `''` or a canonical number; it is not `''` exactly when some element, all earlier ones reading cleanly without a match, holds a match; that element's label-or-text gives the number |
| Listing.ExtractPhone | lead_finder.py:142-151 | a failed lookup gives `''`; otherwise as the scan: non-empty exactly when an element holds a match, and then canonical |
| Listing.ExtractWebsite | lead_finder.py:153-158 | a failed lookup gives `''`; otherwise the anchor's `href` (`None` when it has none) |
| Listing.ExtractRating | lead_finder.py:160-165 | a failed lookup gives `None`; otherwise `float` of the stripped text, `None` when that fails |
| Listing.ExtractReviews | lead_finder.py:167-173 | a failed lookup gives 0; otherwise `None` exactly when no `(digits)` group occurs, else the leftmost group's integer |
| Listing.ExtractBusinessInfo | lead_finder.py:127-140 | no record exactly when the name or `current_url` read raises; otherwise the stripped name, the Maps URL, no city, and each field from its extractor, the phone `''` or canonical |
| Listing.MissingFieldDefaults | lead_finder.py:127-173 | a listing whose name reads but whose other lookups all raise gets phone `''`, website `''`, rating `None`, review count 0 |
| Listing.NoPhoneNumber | lead_finder.py:142-151 | phone elements that all read cleanly without a number give `''` |
| Table.ColumnsOf | lead_finder.py:179-187 | the bound values are the lead's, the city `lead.get('city', '')`, and `has_website`/`business_hours` stay `NULL` |
| Table.WithoutKey | lead_finder.py:179 | the rows kept are exactly those whose key differs from the lead's |
| Table.WithoutKeyUnique | lead_finder.py:179 | deleting the rows of a key keeps the key unique |
| Table.WithoutKeyChronological | lead_finder.py:179 | deleting the rows of a key keeps the remaining rows in timestamp and id order |
| Table.WithoutKeySize | lead_finder.py:74 | removing a present key removes exactly one row; an absent key removes none |
| Table.UpsertValid | lead_finder.py:179-187 | `INSERT OR REPLACE` keeps the key unique and the rows ordered, and grows the table by one row at most, by none when the key was present |
| Table.UpsertContents | lead_finder.py:179-187 | afterwards exactly one row has the lead's key, the new last row with its values, fresh id and current time; rows with other keys are unchanged |
| Table.View | lead_finder.py:74 | the key-to-columns map of the table holds exactly the table's keys, each with its row's columns |
| Table.ViewSize | lead_finder.py:74 | a table with a unique key has one row per key |
| Table.ViewUpsert | lead_finder.py:179-187 | an upsert stores the lead's columns under its key and changes no other key |
| Table.LimitCount | lead_finder.py:197 | `LIMIT` lets through at most `limit` rows and at most the table's size; a negative limit lets all through |
| Table.NewestFirstAt | lead_finder.py:197 | the selection is the last `LimitCount` rows of the table, the last written first |
| Table.NewestFirstOrdered | lead_finder.py:197 | the selection has the limited length, holds rows of the table, and has strictly decreasing timestamps |
| Table.NewestFirstNewest | lead_finder.py:197 | every row left out is older than every row selected |
| Harvest.PySliceHead | lead_finder.py:105 | `s[:n]` is a prefix of `s`: `min(n, len(s))` long for `n >= 0`, all but the last `-n` (or nothing) for `n < 0` |
| Harvest.Stamp | lead_finder.py:109 | the lead's city becomes the search city and no other field changes |
| Harvest.Sources | lead_finder.py:105-108 | the positions of the elements that yield a record, strictly increasing, and every such position |
| Harvest.HarvestedFromSources | lead_finder.py:105-113 | result `k` is the stamped record of the `k`-th element that yields one, so results keep element order and elements yielding none or raising are skipped |
| Harvest.HarvestedBound | lead_finder.py:105-110 | at most one result per examined element, and every result carries the search city |
| Harvest.HarvestedRecords | lead_finder.py:106-110 | with `extract_business_info` as the loop body, no lead comes back when the URL read raises; otherwise every lead has the search city, the page URL and a phone that is `''` or canonical |
| Harvest.HarvestedAppend | lead_finder.py:105-113 | harvesting a concatenation harvests each part in turn: a skipped element does not stop later ones |
| Harvest.HarvestResultBound | lead_finder.py:96-122 | for `max_leads >= 0` at most `min(max_leads, len(elements))` results; for negative `max_leads` at most `len(elements) + max_leads`; a failed load or a timeout gives `[]` |
| Harvest.SaveAllValid | lead_finder.py:175-192 | the saves keep the table invariant and add at most one row per lead |
| Harvest.Updates | lead_finder.py:111 | the keys the saves of a list of leads write are exactly the leads' keys |
| Harvest.UpdatesLastAt | lead_finder.py:179-187 | under the key of a lead that no later lead shares, the saves leave that lead's columns |
| Harvest.UpdatesLast | lead_finder.py:179-187 | under every key, the saves leave the columns of the last lead with that key |
| Harvest.ViewSaveAll | lead_finder.py:179-187 | when every save succeeds (accepted and bindable), each key ends up holding the columns of the last lead with that key, and other keys are unchanged |
| Harvest.CountBeyondInt64NotSaved | lead_finder.py:178-192 | a review count of 2^63 is read from `(9223372036854775808)`, but a lead holding it is never saved: the table is unchanged |
| Harvest.SaveAllIdempotent | lead_finder.py:179-187 | saving the same leads again leaves the same columns under the same keys and the same number of rows |
| Table.EmptyValid | lead_finder.py:61-75 | the table of a new database file is empty and satisfies the invariant |
| Finder.LeadFinder.constructor | lead_finder.py:57-80 | `CREATE TABLE IF NOT EXISTS` keeps the rows a database file already holds: the new finder's table is the persisted one, and the invariant holds |
| Finder.LeadFinder.SaveLeadToDb | lead_finder.py:175-192 | returns True exactly when the engine accepts the statement and the review count fits in 64 bits; the table then is the upsert of the lead, otherwise unchanged; the invariant is kept |
| Finder.LeadFinder.GetLeadsFromDb | lead_finder.py:194-203 | the rows are the newest-first selection, at most `limit` of them (all for a negative limit), from the table, with strictly decreasing timestamps, every row left out older; `[]` when the query fails or `limit` does not fit in 64 bits |
| Finder.LeadFinder.SearchBusiness | lead_finder.py:82-125 | the results are the harvest of the elements the page lists, sliced by `max_leads`, or `[]` on a failed load or a timeout; the table is the old one with those results saved in order; the invariant is kept |

## Left out

- Selenium is not modelled: the Chrome options, driver creation, page-load timeout, `time.sleep`, `WebDriverWait` and `driver.quit`. The page load is the parameter `load`. A `driver.quit` that raises in the `finally` block is not modelled.
- Flask is not modelled: CORS, routes, JSON responses, logging and dotenv. That includes the required-field check of `generate_leads` and the unchecked `int(target_leads)`; the harvest takes any integer `maxLeads`.
- SQLite is not modelled: the connection, the execution of `CREATE TABLE`, commit and the `CURRENT_TIMESTAMP` wall clock. The clock has second resolution, so rows written in the same second could come back in any order. The model uses a logical clock that advances on every successful write, so its timestamps never tie.
- Listing.ExtractReviews: does not model the limit Python 3.11 and later put on `int()`. Such an `int()` raises `ValueError` for a numeral longer than 4300 digits (by default; the limit is configurable), and `extract_reviews` then returns 0 through its bare `except`. The model returns the numeral's value (`Text.DecimalValue`, unbounded) for any length, because the limit depends on the interpreter's version and configuration.
- Finder.LeadFinder.constructor: the persisted table must satisfy the model's invariant. SQLite itself enforces the unique key. Strictly increasing timestamps and ids hold for a file written under the model's logical clock; a wall-clock file with rows written in the same second is not covered.
- Listing.ExtractRating: Python's `float()` is the parameter `toFloat`. Floating point is not modelled.
- Text.IsDigit: `\d` and `\s` are the ASCII digits and ASCII whitespace, not Python's full Unicode classes. `str.strip()` is modelled the same way.
- The instance fields `collected_businesses`, `current_leads`, `target_leads` and `leads` are not modelled, because nothing reads them.
- Table.UpsertValid: `id` and the logical timestamp are unbounded; SQLite's failure once `AUTOINCREMENT` passes 2^63 - 1 is not modelled.
- Finder.LeadFinder.SearchBusiness: each call is modelled as having the table to itself. The source serves one shared finder, whose single connection allows use from other threads, from a threaded Flask server. Overlapping `/generate_leads` requests could then interleave their saves, and the ensures describing the final table would not hold. Concurrent requests are not modelled.
- Finder.LeadFinder.SearchBusiness: an exception while running the loop body is only modelled as the `Failed` outcome of the extractor. In the source, `extract_business_info` and `save_lead_to_db` catch everything, so the loop's own `except` is never reached.

### Behaviour of the code the model keeps

These behaviours of the code may be unexpected; the model keeps them.

- `extract_reviews` returns `None` when the text holds no `(digits)` group. The code falls off the end of its `try` block. It does not return 0 here.
- The phone scan ends with `''` as soon as reading an element raises. Later elements are not tried, because the bare `except` wraps the whole loop.
- A raising `driver.current_url` makes `extract_business_info` return `None`. The read sits inside the same `try` as the name lookup.
- `has_website` and `business_hours` are never written, so they stay `NULL`.
