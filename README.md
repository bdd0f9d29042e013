# ORCID Publications block — a verified model of the render callback

The WordPress plugin "ORCID Publications" shows a researcher's works from the
ORCID public registry in a block. All of its behaviour sits in the server-side
render callback `display_orcid_publications` (orcid-publications.php:48-134).
The callback runs as one pipeline:

1. It reads the `orcid` block attribute. An empty iD returns a fixed prompt.
2. It looks up the transient `orcid_pubs_<iD>`. On a miss it sends one GET to
   `https://pub.orcid.org/v3.0/<iD>/works`. A transport error or an unusable
   body returns a fixed message and writes nothing.
3. It normalizes each `group` entry into a flat record `{title, year, type, url}`.
   The url comes from the first external id of type `doi`. The list is cached
   for twelve hours.
4. It renders the records as an HTML fragment, escaping every field.

The Dafny modules follow these stages:

- `wrappers.dfy` (`Wrappers`): `Option`, with `GetOr` as PHP's `??`.
- `works.dfy` (`Works`): the decoded ORCID document as datatypes with optional
  fields. It holds PHP's `empty()` on strings, the field extraction, the DOI
  search (a method with an early `break`) and the normalization loop (a
  method that appends one record per entry).
- `markup.dfy` (`Markup`): a small HTML element tree that specifies the
  markup, and the render loop. The loop grows the output with `.=` steps and is
  proved equal to the serialization of that tree. `esc_html` and `esc_url` are
  the two fields of an `Escapers` value. Every result holds for any choice of
  them.
- `transients.dfy` (`Transients`): the transient store, a class holding a
  `map` from keys to values with their time-to-live.
- `orcid_api.dfy` (`OrcidApi`): the registry. A `Reply` is either a transport
  error or a body whose JSON decoding is given. The endpoint is a class whose
  ghost `requests` log records every GET, so fetches can be counted.
- `pipeline.dfy` (`Pipeline`): `Display`, the callback as a function of the
  attributes, the cache and the reply. `DisplayOrcidPublications` is the
  imperative callback, proved to agree with `Display`. The lemmas state the
  caching and error behaviour.

The block editor declares five options that the server neither registers
nor reads, so the model follows the server code in orcid-publications.php:

- The block editor declares `titleTag`, `fontSize`, `showYear`, `showType` and
  `layout` (assets/js/src/index.js:21-40). The server registers only `orcid`
  (orcid-publications.php:39-44) and reads only `orcid` (orcid-publications.php:49).
- The renderer always uses `<h3>` and has no layout class or font-size style
  (orcid-publications.php:113-128).
- The renderer always emits the `<p>` metadata element. It prints the year and
  type whenever they are non-empty, with no option to hide them
  (orcid-publications.php:120-127).

Two behaviours of the PHP code are modelled as written:

- The iD, url, year and type are tested with PHP's `empty()`
  (orcid-publications.php:51, 114, 121, 124). On a string it holds for both
  `""` and `"0"` (`PhpEmpty`).
- A group whose `work-summary` is empty or missing does not stop the loop.
  Reading `[0]` yields null (orcid-publications.php:83), and every `??` chain
  and `isset` on null gives `''` or false. So the entry becomes a record with
  four empty fields (`EmptyGroupRecord`).

## Model

| member | source | states |
|---|---|---|
| `Works.BaseRecord` | orcid-publications.php:85-90 | title, year and type are the nested `title.title.value`, `publication-date.year.value` and `type` when every level is present, and `""` (the `??` default) when any level is missing; the url starts as `""` |
| `Works.NormalizedFields` | orcid-publications.php:85-100 | title, year and type are the nested values when every level is present and `""` when any level is missing; the url is `""` when the external-id list is not set and the first-DOI link when it is |
| `Works.EmptyGroupRecord` | orcid-publications.php:83-90 | a group entry with no work summary gives a record with all four fields `""` |
| `Works.OnlyFirstSummaryRead` | orcid-publications.php:83 | only the first work summary of a group is read; appending further summaries does not change the record |
| `Works.DoiUrlEmptyIffNoDoi` | orcid-publications.php:89-99 | the url is `""` exactly when no external id has type `doi` |
| `Works.DoiUrlPicksFirstDoi` | orcid-publications.php:94-99 | when entry k is the first whose type is exactly `doi`, the url is `https://doi.org/` followed by entry k's value; earlier non-DOI ids and all later ids are ignored |
| `Works.DoiUrlAppend` | orcid-publications.php:94-99 | searching a concatenated list gives the first part's DOI link if it has one, and otherwise the second part's |
| `Works.FindDoiUrl` | orcid-publications.php:93-100 | the linear search with `break` returns `""` exactly when no id has type `doi`, and otherwise the link of the first id whose type is `doi` |
| `Works.NormalizeGroups` | orcid-publications.php:81-103 | the loop yields exactly one record per group entry, in the same order, each the normalization of its entry |
| `Markup.HeadingMarkup` | orcid-publications.php:114-119 | the `<h3>` heading holds the escaped title, wrapped in `<a href="esc_url(url)" target="_blank">` exactly when the url is not empty |
| `Markup.MetadataMarkup` | orcid-publications.php:120-127 | the `<p>` element is always present; it holds the year span followed by a space only for a non-empty year, then the type span only for a non-empty type |
| `Markup.AppendPublication` | orcid-publications.php:113-128 | the `.=` steps for one record append exactly the serialization of that record's `<div class="publication">` tree |
| `Markup.RenderPublications` | orcid-publications.php:110-131 | the output is the serialization of `<div class="orcid-publications">` holding one publication div per record, in order |
| `Markup.EmptyListMarkup` | orcid-publications.php:110-131 | an empty record list renders as the bare wrapper `<div class="orcid-publications"></div>` |
| `Markup.OnlyEscapedFieldsReachMarkup` | orcid-publications.php:115-125 | field text reaches the output only through `esc_html`/`esc_url`: two lists whose fields escape to the same text, with the same fields empty, render identically |
| `Transients.TransientStore.Get` | orcid-publications.php:59-61 | the lookup finds a value exactly when the key has a live entry, and then returns that entry's value |
| `Transients.TransientStore.Set` | orcid-publications.php:106 | storing sets the key to the value and time-to-live and leaves every other key as it was |
| `OrcidApi.Endpoint.Get` | orcid-publications.php:64-72 | one GET appends its request to the request log and returns the registry's reply |
| `Pipeline.DisplayOrcidPublications` | orcid-publications.php:48-134 | the callback returns `Display`'s markup, leaves the store holding `Display`'s cache, and sends exactly `Display`'s request (none or one) |
| `Pipeline.MissingIdShortCircuits` | orcid-publications.php:49-53 | a missing or empty iD gives exactly `<p>Please provide an ORCID ID</p>`, with no request and the cache unchanged |
| `Pipeline.CacheHitNeverFetches` | orcid-publications.php:56-61 | when the cache holds `orcid_pubs_<iD>`, no request is sent, the cache is unchanged and the output is the rendering of the cached list |
| `Pipeline.MissFetchesOnce` | orcid-publications.php:61-68 | on a miss exactly one request is sent, to `https://pub.orcid.org/v3.0/<iD>/works` with `Accept: application/json` |
| `Pipeline.TransportErrorNotCached` | orcid-publications.php:70-72 | a transport error gives exactly `<p>Error fetching publications</p>` and leaves the cache unchanged |
| `Pipeline.UnusableBodyNotCached` | orcid-publications.php:74-79 | a body that does not decode, or has no `group`, gives exactly `<p>No publications found</p>` and leaves the cache unchanged |
| `Pipeline.UsableBodyCached` | orcid-publications.php:81-106 | after a usable body the cache maps `orcid_pubs_<iD>` to exactly the normalized list with a 43200-second time-to-live, no other key changes, and the output renders that list |
| `Pipeline.SecondCallServedFromCache` | orcid-publications.php:56-106 | after a call that renders publications, a second call for the same iD sends no request, keeps the cache and returns the same markup, whatever the registry would answer |
| `Pipeline.AtMostOneRequest` | orcid-publications.php:56-107 | a call sends at most one request, and only a call that sent one can change the cache |

## Left out

- Plugin bootstrap, stylesheet enqueueing and block registration (orcid-publications.php:9-46) are WordPress hook plumbing with no behaviour to state.
- The block editor (assets/js/src/index.js) and the build configuration (webpack.config.js) are not part of this model. They are editor controls and packaging.
- The HTTP transport (`wp_remote_get`, `wp_remote_retrieve_body`) is network I/O. It is replaced by the `Reply` given to the endpoint.
- `json_decode` is not modelled. The decoded document is the input, and `Body(None)` stands for every body that is not a decoded object.
- The internals of `esc_html` and `esc_url` are WordPress functions outside this code. They are arbitrary functions supplied in `Escapers`.
- Wall-clock expiry of transients is not modelled. An expired entry is an absent one; the store records each entry's time-to-live.
- A failing `set_transient` (its `false` result is ignored by the code) is not modelled: the store always accepts the write.
- JSON values of shapes the code does not expect are not modelled: a `group` that is not an array, a work entry that is not an object, or a `type` or `value` that is not a string. The datatypes admit only the expected shapes, each field optional.
- PHP notices raised on a missing or empty `work-summary` are not modelled; only the resulting values are.
- Concurrent requests racing on the same cache key are not modelled; each call is one sequential run.
