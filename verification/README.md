# Google Shopping sidebar scraper: a Dafny model of its decision logic

`llm_scraper.py` drives a browser over a Google Shopping results page. It
clicks the product tiles one after another, extracts each tile's sidebar with
a CSS schema that an LLM generated, and collects one ranked `Product` per
tile whose extraction yields rows. Most of the file is browser and LLM
plumbing. This project models the pure decisions inside it:

- **Schema gate** (`SchemaCheck`, `schema.dfy`). `_validate_schema` and
  `TARGET_FIELDS`. The gate collects the top-level field names plus the nested
  names of every field typed `"list"`. It refuses a schema that lacks any of
  the seven required names, and its message lists the missing names in
  ascending order. It also models the cache-or-generate choice of
  `generate_sidebar_schema`.
- **Tile advancement** (`Tiles`, `tiles.dfy`). `NEXT_TILE_JS` as an operation
  on the tiles' `done` markers in document order.
- **Records and row mapping** (`Models`, `models.dfy`). `ProductLink`,
  `Product` and `ShoppingResults`, and how the first extracted row of a tile
  becomes a product with its merchant links.
- **Harvest loop** (`Harvest`, `harvest.dfy`). The iterate-tiles loop of
  `scrape_google_shopping`. The browser is replaced by the tile markers plus
  `sidebar`, which gives for each tile what extraction returns once that tile
  is clicked. The loop is defined recursively (`HarvestLoop`) and also written
  as the bounded loop it is (`HarvestTiles`). Both are proved against a
  reference description: tiles `0 .. min(n, 50) - 1` are clicked in order, and
  product `k` comes from the `k`-th usable extraction.
- **Slug** (`Slug`, `slug.dfy`). `slugify`.
- **Shared types** (`Wrappers`, `wrappers.dfy`). `Option`, `Result` and
  `Outcome`.

Three behaviours of the code shape the model:

- The harvest does not run the gate. `scrape_google_shopping` reads the
  cached schema file and uses it as is (llm_scraper.py:131); only
  `generate_sidebar_schema` validates. The harvest model therefore takes no
  schema at all.
- A per-tile failure does not always just skip the tile. A failed extraction
  or an empty row list is skipped. A first row without `product_title`, or
  with a merchant sub-row without `href`, makes the `Product` or
  `ProductLink` constructor raise a validation error (`name` and `url` are
  required strings), and that ends the whole run. The model returns this as
  `Failure(ValidationError(...))`. The links are built before the product,
  so a missing `href` is the error reported when both are missing.
- A freshly generated schema is written to the cache before the gate runs
  (llm_scraper.py:105-107), so a rejected schema is still cached.
  `ObtainSchema` reports the write separately from the gate's verdict.

## Model

| member | source | states |
|---|---|---|
| SchemaCheck.CollectNames | llm_scraper.py:114-117 | Collecting names succeeds exactly when every `"list"` field has nested `fields`; otherwise it fails with `KeyError("fields")`. |
| SchemaCheck.NamesExact | llm_scraper.py:114-117 | The collected set is exactly the top-level names plus the nested names of `"list"` fields. |
| SchemaCheck.NonListNestedIgnored | llm_scraper.py:115-117 | Replacing the nested fields of a field not typed `"list"` never changes the collected names. |
| SchemaCheck.TargetsAscendingFacts | llm_scraper.py:81-82 | The listing the message draws from holds exactly the seven required names, in ascending code-point order. |
| SchemaCheck.MissingListing | llm_scraper.py:119-122 | The listed names are exactly the required names missing from the collected set, in ascending order. |
| SchemaCheck.AscendingListingUnique | llm_scraper.py:122 | Two strictly ascending listings of the same names are equal, so the message's listing is the one `sorted` returns. |
| SchemaCheck.ValidateSchema | llm_scraper.py:112-123 | The gate passes iff every `"list"` field has nested `fields` and all seven required names are declared. A missing `fields` key gives `KeyError`. Otherwise the `ValueError` message is the prefix plus the sorted missing names joined by `", "`. |
| SchemaCheck.RemovingRequiredNameReportsIt | llm_scraper.py:119-123 | Removing one required name from a schema that passes, when no `"list"` field carries that name, makes the gate fail with a message naming exactly that name. |
| SchemaCheck.Join | llm_scraper.py:122 | `", ".join`: a non-empty listing starts with its first name, followed by the separator when there are further names. Its length is the names' total length plus one separator between each pair of neighbours. An empty listing joins to the empty string. |
| SchemaCheck.JoinSplit | llm_scraper.py:122 | Splitting the names at any point splits the joined string at exactly one separator, so each name sits in its own place between separators, in order. |
| SchemaCheck.MissingStoreRatingIsReported | llm_scraper.py:84-123 | A complete example schema minus `store_rating` is refused with the message `Generated schema is missing fields: store_rating`, also when it comes from the generator (which still writes the cache). |
| SchemaCheck.ObtainSchema | llm_scraper.py:84-109 | A cached schema is used unless regeneration is forced. The cache is written exactly when a schema is generated, whatever the gate decides. The result is the chosen schema when the gate passes and the gate's error otherwise. |
| Tiles.FirstUnvisited | llm_scraper.py:67-68 | The tile found is unmarked and every tile before it is marked; nothing is found iff all tiles are marked. |
| Tiles.NextTile | llm_scraper.py:65-75 | The script answers `NO_CARD` iff every tile is marked, and then leaves the markers unchanged. Otherwise it picks the first unmarked tile, marks it and no other tile, and answers `OK`. |
| Tiles.UnvisitedExact | llm_scraper.py:67-68 | The unvisited list holds every unmarked tile and only those, in document order. |
| Tiles.AdvancePopsFirst | llm_scraper.py:68-70 | An `OK` answer removes exactly the head of the unvisited list. |
| Tiles.NoCardIffNoneLeft | llm_scraper.py:68-69 | `NO_CARD` is answered exactly when no unvisited tile is left. |
| Tiles.DriveVisitsInOrder | llm_scraper.py:65-75 | Repeated runs answer `OK` once per unvisited tile, in document order, then `NO_CARD`. |
| Tiles.FreshPageVisitsAll | llm_scraper.py:65-75 | On `n` fresh tiles, `n + 1` runs answer `OK` for tiles `0 .. n - 1` in order, then `NO_CARD`. |
| Tiles.NoCardIsFinal | llm_scraper.py:69 | Once `NO_CARD` has been answered, every later run answers `NO_CARD` too. |
| Models.ToLinks | llm_scraper.py:175-184 | The links are built iff every sub-row has `href`. They match the sub-rows one to one and in order: link `k` takes its url from `href`, its price and store from `price` and `store`, and its rating from `store_rating` of sub-row `k`. A sub-row without `href` fails with the `ProductLink.url` error. |
| Models.ToProduct | llm_scraper.py:170-195 | A product is built iff the row has a title and all its sub-rows have `href`. It takes rank, title, price, rating and review count from the row, and its links from `merchants`, one per sub-row (none when the key is absent). On failure the `url` error takes precedence over the `name` error. |
| Models.BuildableIgnoresRank | llm_scraper.py:186-188 | Whether a row can be built does not depend on its rank, and the products for two ranks differ only in the rank. |
| Harvest.HarvestLoop | llm_scraper.py:145-195 | From a state with at most 50 clicks, a successful run never has fewer clicks than it started with, and makes at most 50 advancements, no fewer than its clicks. It keeps ranks `1 .. N` dense. A run aborts only with the `ProductLink.url` or `Product.name` validation error. |
| Harvest.Harvest | llm_scraper.py:145-195 | On a fresh page a successful run has dense ranks and at most 50 advancements, no fewer than its clicks. A failed run carries the `url` or `name` validation error. |
| Harvest.LoopClicks | llm_scraper.py:145-151 | From any state, a successful run clicks the next unvisited tiles in document order, as many as the remaining bound allows. It stops on `NO_CARD` after one extra advancement when fewer tiles are left, and on the bound otherwise. |
| Harvest.LoopProducts | llm_scraper.py:162-195 | From any state, the run appends one product per usable extraction among the tiles it clicks, ranked after those already collected. It aborts with the error of the first row that cannot be built. |
| Harvest.HarvestMatchesReference | llm_scraper.py:145-195 | On a page with `n` tiles the run clicks tiles `0 .. min(n, 50) - 1`. Product `k` is built from the `k`-th usable extraction with rank `k + 1`. It ends on `NO_CARD` after `n + 1` advancements when `n < 50`, else on the bound after exactly 50. It fails iff some usable row in the window cannot be built. |
| Harvest.HarvestInvariants | llm_scraper.py:145-188 | Every successful run has ranks `1 .. N` without gap or repeat and at most 50 advancements. A run that ends on the bound has clicked exactly 50 tiles. |
| Harvest.SkippedTileAddsNothing | llm_scraper.py:162-168 | On a page of at most 50 tiles, inserting a tile whose extraction fails or has no rows leaves the run succeeding or failing alike, with the same products, and costs exactly one more click. The exit reason can differ: at 50 tiles the run ends on the bound instead of on `NO_CARD`. |
| Harvest.EmptyPageHarvestsNothing | llm_scraper.py:145-151 | With no tiles, one advancement answers `NO_CARD` and the run has no products. |
| Harvest.SkipBetweenTwoProducts | llm_scraper.py:162-195 | For tiles that succeed, fail, succeed, the run gives exactly two products, ranked 1 and 2, built from the first and third tile. |
| Harvest.VisitNext | llm_scraper.py:146-195 | One pass of the loop body either ends the run with the recursive definition's result, or advances to a state with one more click from which that definition gives the same result. |
| Harvest.HarvestTiles | llm_scraper.py:145-195 | The bounded loop with early exits computes exactly the run the recursive definition gives. |
| Harvest.ScrapeGoogleShopping | llm_scraper.py:126-203 | The result exists iff the harvest succeeds, and otherwise carries the harvest's error. `total_products` equals the number of products, ranks are dense, and the query, timestamp and search URL are the ones given. |
| Slug.ReplaceUnsafe | llm_scraper.py:208 | Every character outside `[\w.-]` becomes `_`; every other character is kept in place. |
| Slug.Strip | llm_scraper.py:208 | The result is the input without its leading and trailing `_`, in order, and it neither starts nor ends with `_`. |
| Slug.Slugify | llm_scraper.py:206-208 | The slug is no longer than the text, is made of lower-case `[\w.-]` characters only, and neither starts nor ends with `_`. |
| Slug.SlugIsFixedPoint | llm_scraper.py:208 | A string made of slug characters with no `_` at either end is its own slug. |
| Slug.SlugifyIdempotent | llm_scraper.py:206-208 | Slugifying a slug changes nothing. |
| Slug.KeptCharsSurvive | llm_scraper.py:208 | Every `[\w.-]` character of the text other than `_` lies inside the stripped range and appears in the slug lower-cased, at its own position minus the number of leading `_` removed. |

## Left out

- Browser interaction is replaced by the tile markers and the per-tile `sidebar` extraction outcomes, which are fixed in advance. This covers `AsyncWebCrawler`, `arun`, `CrawlerRunConfig`, `js_cfg`, the wait-for-selector timeouts, the page-open wait and the async structure. Tiles that appear during the run are not modelled.
- The advancement call is taken to return the script's answer in `extracted_content`, so the test for `"NO_CARD"` (llm_scraper.py:150) sees what `NEXT_TILE_JS` returns. `js_cfg` (llm_scraper.py:57-63) sets no extraction strategy for that call, so this relies on crawl4ai reporting a `js_code` return value there. If it does not, the source never breaks on `NO_CARD` and uses all 50 iterations, and the `Exhausted` exit and the `n + 1` advancement counts in `Harvest.HarvestMatchesReference`, `Harvest.EmptyPageHarvestsNothing` and `Harvest.SkipBetweenTwoProducts` would not describe it.
- The lazy-scroll phase (six fixed scroll calls, no decisions) is left out.
- LLM schema generation and its prompt are left out: the generated schema is a parameter of `ObtainSchema`.
- File I/O is left out: reading and writing the cache file (`ObtainSchema` reports whether it writes it), `save_results` and its folder creation.
- Ambient values are parameters: `datetime.now` becomes the `scrapedAt` parameter, and `quote_plus(query)` becomes the `encodedQuery` parameter.
- `json.loads` is left out: schemas and rows are already-structured values.
- The CLI, the `LLM_KEY` check and the console output are left out.
- Styling and scrolling in `NEXT_TILE_JS` (outline, `scrollIntoView`) are left out. The real click is represented by the tile's entry in `sidebar`.
- Pydantic type coercion is left out, except that a missing `name` or `url` aborts the run. A merchant sub-row that is not a mapping, and a `merchants` key present with value `null` (the source would fail iterating it), are not represented: `Row.merchants` is either absent or a list.
- Schema documents whose top level lacks `fields`, or a field lacking `name` or `type`, are not represented (the source raises `KeyError` there). Only the nested `fields` of a `"list"` field can be missing.
- SchemaCheck.RemovingRequiredNameReportsIt: does not cover removing a required name that is also the name of a `"list"` field. That removal drops the field's nested names too, so the message then lists them as well. `SchemaCheck.ValidateSchema`'s message clause still describes that case.
- Slug.Slugify: `\w` is approximated by ASCII letters, digits and `_`. Python's Unicode `\w` also keeps non-ASCII letters and digits, which would then go through Unicode lower-casing. Under the approximation, ASCII lower-casing is exact.
