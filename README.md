# ecom-scraper extraction core in Dafny

This project models the data shaping behind the `POST /extract-content`
endpoint of ecom-scraper. The endpoint comes in two variants, `app.py` and
`scrape.py`. Each variant renders a URL in a browser, then reads every
`<img>` and every `<meta>` element. It returns the image sources and a
metadata dictionary.

The browser session is not modelled. What it yields is given to the model
as a `Page` value: the `<img>` records and the `<meta>` records, each in
document order, with every attribute either a string or absent (Python's
`None`).

- `Metadata` (metadata.dfy) holds `extract_metadata`, which is the same in
  both files. The loop is the method `ExtractMetadata`. It is proved equal to
  the fold `MetadataOf`. The fold's properties are proved as lemmas: the key
  precedence (`property`, then `name`, otherwise skipped), the exact key set,
  last-wins on duplicate keys, and that no element touches another element's
  key.
- `App` (app.dfy) holds `clean_image_urls` and the `app.py` handler.
  `clean_image_urls` is a set comprehension turned into a list. The set is
  the function `HttpsSet`. The `list()` conversion is the method
  `CleanImageUrls`, which may emit the set's elements in any order, since
  Python fixes no order for a set.
- `Scrape` (scrape.dfy) holds the `scrape.py` handler. It returns the
  `src` of every image unfiltered.
- `Elements` (elements.dfy), `Http` (http.dfy) and `Wrappers` (wrappers.dfy)
  hold the element records, the replies and `Option`.

Python truthiness of an attribute is `Truthy`: present and non-empty.

No `og:` prefix filter is applied: any non-empty `property` is a key
(`PropertyKeyed`, `AnyPropertyIsAKey`).

## Model

| member | source | states |
|---|---|---|
| Elements.SrcAttributes | scrape.py:40-41 | one entry per image element, in element order, equal to that element's `src` (absent and duplicate values kept) |
| Metadata.ExtractMetadata | app.py:9-25 | the loop starting from an empty dictionary yields the fold `MetadataOf` of the meta elements, and its keys are exactly the keys some element is stored under |
| Metadata.ConcatIsUnion | app.py:14-23 | processing two runs of elements one after the other equals the union of their dictionaries, the later run's entries overriding the earlier |
| Metadata.KeysExact | app.py:14-23 | the dictionary's key set is exactly the set of non-empty property-else-name values; elements with neither add no key |
| Metadata.LastWins | scrape.py:12-21 | for each key, the stored value is the `content` (absent included) of the last element in input order stored under that key |
| Metadata.PropertyKeyed | app.py:20-21 | an element with a non-empty `property` adds that key with its `content`, whatever its `name`, and leaves every other key as it would be without the element |
| Metadata.NameKeyed | app.py:22-23 | an element with an empty or absent `property` and a non-empty `name` adds the `name` key with its `content` and leaves every other key unchanged |
| Metadata.Unkeyed | scrape.py:18-21 | an element with neither a non-empty `property` nor a non-empty `name` leaves the dictionary as it would be without it |
| Metadata.Contribution | scrape.py:15-21 | a keyed element always puts its key in the dictionary, holds its `content` there unless a later element reuses the key, and changes no other key |
| Metadata.AnyPropertyIsAKey | app.py:19-21 | a single element with any non-empty `property`, `og:` or not, yields exactly the dictionary mapping that `property` to its `content`, absent content included |
| App.HttpsSet | app.py:30 | the comprehension holds exactly the present sources that start with `https://` |
| App.HttpsSetBound | app.py:30 | the comprehension has no more strings than there are sources |
| App.CleanImageUrls | app.py:28-31 | every output is a non-empty `https://` string, there are no duplicates, every `https://` source appears, and the output is no longer than the input |
| App.ExtractContent | app.py:35-55 | a missing or empty `url` gives exactly the 400 "URL is required" reply, whatever the page holds; otherwise 200 with the page's metadata and the de-duplicated `https://` image sources |
| Scrape.ExtractContent | scrape.py:27-46 | a missing or empty `url` gives exactly the 400 "URL is required" reply, whatever the page holds; otherwise 200 with the page's metadata and every image `src` in element order |

## Left out

- Flask routing, CORS and `app.run` are HTTP plumbing.
- The rendered `Page` is an input to both handlers whether or not the `url` guard fires. The model therefore shows only that the 400 reply does not depend on the page. It does not show that no browser session is opened.
- The browser session (`SB(...)`, `activate_cdp_mode`, `find_elements`, `get_attribute`) is replaced by the `Page` argument. The three-second `sleep` is timing and is not modelled.
- The `except Exception` branch answers a failed browser call with 500 and the error text. Browser calls cannot fail in this model, so the branch is not modelled.
- A request without a JSON body, where `data.get` itself fails, is not modelled.
- A `url` that is a JSON value other than a string or null is not modelled. Its truthiness follows other rules (`0`, `[]`, `false`).
- `jsonify` serialisation is not modelled. This includes dictionary key order and the order of the cleaned image list in the JSON text.
- App.CleanImageUrls: the order of the output list is deliberately left open, because Python fixes no iteration order for a set.
