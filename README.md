# Paginated WFS fetch, typeName rule, fetch memo and choropleth fill rule

This project models, in Dafny, the logic of `main.py` of a one-shot script
that draws a choropleth map of Dutch municipalities. The script fetches the
municipal boundaries from a PDOK WFS endpoint page by page, memoises the
fetch per URL, and styles each thematic layer so that a region without a
value is drawn light grey.

Modules:

- `Wrappers` (`Wrappers.dfy`): `Option`, for a JSON key that may be missing
  and a table value that may be null.
- `TypeName` (`TypeName.dfy`): the `typeName` query parameter derived from the
  request URL. Python's `str.split` is modelled as it behaves (`Split`, with
  `Join` as its inverse). The "text after the last `typeName=`" reading is
  proved against an independent rightmost-occurrence search (`FindLast`).
- `Wfs` (`Wfs.dfy`): the pagination loop of `fetch_features` as a method with
  loop invariants. The endpoint is an abstract page oracle `Server`, a
  function from the URL and the request parameters to the decoded response.
  The method also returns the log of the requests it sent.
- `FaithfulSource` (`FaithfulSource.dfy`): an endpoint that serves slices of
  a finite collection. Against it the fetch returns the whole collection
  after exactly `n / 1000 + 1` requests.
- `FeatureCache` (`FeatureCache.dfy`): the `lru_cache(maxsize=None)` memo as a
  class with a `map` from URL to feature list and a request counter.
- `LayerStyle` (`LayerStyle.dfy`): the per-feature `style_function` of a
  thematic layer, with the colour scale left abstract.

Three behaviours of `fetch_features` to note:

- It has no error handling. A response without a `features` key is an
  empty page, which ends the loop.
- On a repeated URL the memo returns the very same list object. The model
  returns an equal value.
- When the collection size is a multiple of 1000, the loop needs one extra
  request, answered with an empty page. The code never asks the server for
  a total count.

## Model

| member | source | states |
|---|---|---|
| `TypeName.FindFirst` | main.py:31 | The index found is an occurrence of the separator and no earlier index is one. `None` means the separator occurs nowhere. |
| `TypeName.FindLast` | main.py:31 | Reference for "last occurrence": the index found is an occurrence and no later index is one. `None` means there is none. |
| `TypeName.Split` | main.py:31 | Python's `split` yields at least one piece, and no piece contains the separator. |
| `TypeName.JoinSplit` | main.py:31 | Joining the pieces of `split` with the separator gives back the original string, so nothing is lost. |
| `TypeName.LastPieceAfterLastOccurrence` | main.py:31 | For a separator that cannot overlap itself, the last piece of `split` is the text after the rightmost occurrence, or the whole string when there is none. |
| `TypeName.FirstPieceBeforeAmpersand` | main.py:31 | The first piece of a split at `&` is the longest prefix without `&`. |
| `TypeName.TypeNameOf` | main.py:31 | The typeName never contains `&`. It is the text after the last `typeName=` (or the whole URL), cut just before the first `&` that follows. |
| `TypeName.TypeNameWithoutKey` | main.py:31 | Without a `typeName=` marker, the typeName is the URL's prefix before its first `&`. |
| `TypeName.GemeenteTypeName` | main.py:48 | For the municipal-boundaries URL, the typeName sent is `gemeente_gegeneraliseerd`. |
| `Wfs.PageOf` | main.py:38 | A response without a `features` key reads as an empty page. Otherwise the page is the features array. |
| `Wfs.RequestAt` | main.py:27-35 | The k-th request (from 0) carries `startIndex = k * 1000`, `count = 1000` and the URL's typeName. |
| `Wfs.StopsAtUnique` | main.py:40-41 | At most one page is the first short page, so where the loop stops is determined by the server and the URL. |
| `Wfs.MissingFeaturesEndsFetch` | main.py:38-41 | A response without `features`, after full pages, ends the fetch without error and adds no features. |
| `Wfs.FetchFeatures` | main.py:21-44 | The k-th request sent is `RequestAt(url, k)`. The loop stops right after the first page shorter than 1000, and every earlier page had at least 1000 features. The result is the in-order concatenation of all pages received. |
| `FaithfulSource.FaithfulPrefix` | main.py:38-42 | While a faithful source's pages are full, the accumulated features are exactly the first `k * 1000` of the collection. |
| `FaithfulSource.FaithfulStops` | main.py:40-41 | A faithful source of n features gives its first short page at index `n / 1000`. |
| `FaithfulSource.FaithfulFetchIsWhole` | main.py:26-44 | What is accumulated from a faithful source by the time the loop stops is the whole collection, in order. |
| `FaithfulSource.FaithfulOutcome` | main.py:26-42 | Any stopping point of a fetch from a faithful source is page `n / 1000`, and the features gathered equal the collection. |
| `FaithfulSource.ExactMultipleEndsWithEmptyPage` | main.py:40-42 | When n is a multiple of 1000, the last request is answered with an empty page. |
| `FaithfulSource.FetchFromFaithfulSource` | main.py:21-44 | Against a faithful source, `fetch_features` returns the collection after exactly `n / 1000 + 1` requests at offsets 0, 1000, 2000, and so on. So 1000 features cost two requests. |
| `FeatureCache.CompleteIsDeterministic` | main.py:20-21 | Two complete fetches of one URL from one time-invariant server give equal lists. |
| `FeatureCache.FaithfulCompleteIsBacking` | main.py:20-21 | A complete fetch, cached or not, from a faithful source is the source's whole collection. |
| `FeatureCache.Cache.constructor` | main.py:20 | A new memo is empty and has sent no requests. |
| `FeatureCache.Cache.Fetch` | main.py:20-44 | On a hit, the cached list is returned and the memo and request count are unchanged. On a miss, the complete fetch is added for good, no entry is evicted, and the count grows by exactly the number of requests the loop sent. |
| `FeatureCache.FetchTwice` | main.py:20 | A second call with an equal URL returns the same list as the first and sends no further request. The memo gains only that URL's entry. The request count grows only on a first miss, and then by exactly the requests of one complete fetch. |
| `LayerStyle.StyleFor` | main.py:142-148 | A present value is filled with `color_scale(value)`. A null value is filled with `#D3D3D3`. |
| `LayerStyle.OnlyFillVaries` | main.py:145-147 | Outline `black`, weight 1 and fill opacity 0.7 are the same for every feature and every scale. Only the fill varies. |
| `LayerStyle.MissingFillIffNull` | main.py:142-144 | When the scale never yields `#D3D3D3`, a grey fill means exactly that the value is null, in both directions. |

## Left out

- Network I/O and JSON decoding (`requests.get`, `response.json()`, main.py:36-37): these are replaced by the abstract `Server` oracle. There are no transport or decoding errors, because the code handles none.
- A `features` value that is present but not a list is not modelled; the model's `Response` holds a list or nothing. In the source, `extend` accepts any iterable. A JSON string is appended character by character and a JSON object key by key, and `len()` of that value still decides whether the loop goes on. A JSON `null`, number or boolean raises an error.
- Wfs.FetchFeatures: requires a ghost witness `last`, a page the server answers short. Against a server that always returns full pages, the source loops forever, and this model does not describe that run.
- FeatureCache.Cache.Fetch: returns an equal list rather than the identical list object, so aliasing between the cache and its callers is not modelled. The cache key is the URL string, as with `lru_cache` on a one-argument function.
- The server is modelled as time-invariant: one URL and one set of parameters always get the same answer. A real endpoint can change between calls, and then `lru_cache` keeps returning the list it fetched first. That staleness is not modelled.
- Null values: `pd.notnull` is modelled as `Option`, where `None` covers both `None` and NaN. The colour scale (`LinearColormap` interpolation) is an abstract function `real -> string`.
- Loading the flood GeoPackage and the city CSV, and the date-to-string conversion (main.py:10-14): library file I/O.
- CRS reprojection (`set_crs`/`to_crs`, main.py:16, main.py:57-58): floating-point geometry inside geopandas.
- The CBS statistics fetch, the pandas left merge and `to_numeric(errors='coerce')` (main.py:61-80): their semantics belong to cbsodata and pandas. When right keys repeat, the merge duplicates left rows, so it is not a "first match wins" join.
- The colour-scale domains (NaN-skipping min/max) and the `LinearColormap` construction (main.py:86-135): float numerics in pandas and branca.
- Map rendering (main.py:83, main.py:139-141, main.py:149-154, main.py:176-214): the GeoJson layers and tooltips, the flood overlay, the city markers, the legends, the layer control and saving the HTML file. The legend loop is written twice (main.py:203-208), so each scale is added twice. That rendering effect is not modelled.
