# Property listings: pagination, rich-text keys and listing creation

This project models three pieces of logic in a Next.js property listings
site and proves properties about them. The site keeps its properties in a
Sanity content store.

- **The listing page** (`src/app/page.tsx`). Its pieces:
  - reading the `page` query parameter as `Number(page) || 1`;
  - the half-open window `[start, end)` of six properties per page;
  - `totalPages`, `hasPrevPage` and `hasNextPage`;
  - the "Showing a-b of total" line;
  - `getPaginationNumbers`, a loop that builds the page-number list with
    `"..."` markers around the current page.
- **`ensureKeys`** (`src/components/PropertyForm.tsx`). It normalises a
  Portable Text value before the editor shows it. It fills in missing keys,
  block style, mark definitions, and the text and marks of spans. It
  dispatches on whether an inline child is a span.
- **The POST handler of the listings API** (`src/app/api/listings/route.ts`).
  Its pieces:
  - the required-field check;
  - `generateSlug`;
  - building the new property document;
  - the response for each outcome.

Modules:

- `Options`: the `Option` type, and JavaScript truthiness of an optional
  string (`x || default`).
- `Decimal`: natural numbers written in decimal, with the round trip.
- `JsString`: JavaScript white space and `trim`.
- `Pagination`: everything from the listing page. `PaginationNumbers` is a
  method with a loop, proved equal to the function `PageList`. The list's
  properties are proved about `PageList`.
- `RichText`: blocks, children and `ensureKeys`. `nanoid()` becomes a key
  supply threaded through the normaliser: a counter `next`, whose key is
  `"k"` followed by `next` in decimal. Keys are drawn in the order the
  source calls `nanoid()`: a block's key, then its children's keys, block
  by block.
- `Slug`: `generateSlug`, one function per chained call.
- `Listings`: the POST handler. The request body is `None` when reading
  its fields throws: the text is not JSON, or it is JSON `null`. A JSON
  object arrives with the fields it has. Any other JSON value that is not
  an object (a number, string, boolean or array) has no `title` and
  arrives with every field absent. The
  content store's `create` is a function parameter that may fail.

Some consequences of the code:

- White space has already become `-` when `.trim()` runs, so the trim
  never removes anything. `generateSlug("  Multiple   Spaces ")` is
  `-multiple-spaces-`. `Slug.SlugKeepsOuterSpace` and
  `Slug.OuterSpaceExample` (`" Hi "` gives `"-hi-"`) state this.
- The window has radius 2. Page 5 of 20 lists
  `[1, "...", 3, 4, 5, 6, 7, "...", 20]` (`Pagination.MiddlePageExample`).
- Five pages can already need a marker. Page 1 of 5 lists
  `[1, 2, 3, "...", 5]` (`Pagination.FivePagesExample`). Only four pages or
  fewer are always listed in full (`Pagination.FewPagesAllListed`).

## Model

| member | source | states |
|---|---|---|
| JsString.Trim | src/app/api/listings/route.ts:22 | the result neither starts nor ends with JavaScript white space; a string without white space is unchanged |
| JsString.TrimMiddle | src/app/api/listings/route.ts:22 | the trimmed text is a slice `s[i..j]` of the input; everything before `i` and from `j` on is white space; the slice neither starts nor ends with white space |
| JsString.TrimStart | src/app/api/listings/route.ts:22 | a suffix of the input; what it drops is white space; it does not start with white space |
| JsString.TrimEnd | src/app/api/listings/route.ts:22 | a prefix of the input; what it drops is white space; it does not end with white space |
| Pagination.ParseNumber | src/app/page.tsx:38 | `Number(s)`: trim, then read an optionally signed decimal integer, NaN otherwise; its contract is carried by `ParseZero`, `ParseDigits`, `ParseNegative`, `CurrentPageDefaults` and `CurrentPageParses` |
| Pagination.ParseTrimmed | src/app/page.tsx:38 | `Number` after the surrounding white space is gone; its contract is carried by `ParseTrimmedDigits` and `ParseTrimmedNegative` |
| Pagination.DigitsTrimmed | src/app/page.tsx:38 | a run of digits holds no white space, so `trim` leaves it unchanged |
| Pagination.NegativeTrimmed | src/app/page.tsx:38 | a minus sign followed by digits holds no white space, so `trim` leaves it unchanged |
| Pagination.ParseZero | src/app/page.tsx:38 | `Number("")` and `Number("0")` are both 0, hence falsy |
| Pagination.ParseTrimmedDigits | src/app/page.tsx:38 | a trimmed run of digits reads as the number it denotes |
| Pagination.ParseDigits | src/app/page.tsx:38 | `Number` reads a run of digits as the number it denotes |
| Pagination.ParseTrimmedNegative | src/app/page.tsx:38 | a trimmed minus sign followed by digits reads as the negated number |
| Pagination.ParseNegative | src/app/page.tsx:38 | `Number` reads `-` followed by digits as the negated number the digits denote |
| Pagination.CurrentPage | src/app/page.tsx:38 | the current page is never 0, and is 1 when the parameter is absent |
| Pagination.CurrentPageDefaults | src/app/page.tsx:38 | an absent, empty, `"0"` or non-numeric parameter gives page 1 |
| Pagination.CurrentPageParses | src/app/page.tsx:38 | any other written integer is the current page as it stands, negatives included (no clamping), so a link `/?page=n` leads to page n |
| Pagination.Start | src/app/page.tsx:39 | `(currentPage - 1) * 6`; its contract is carried by `WindowsTile` |
| Pagination.End | src/app/page.tsx:40 | `start + 6`; its contract is carried by `WindowsTile` |
| Pagination.WindowsTile | src/app/page.tsx:39-40 | `end - start = 6`; page p's window ends where page p+1's starts; every property index lies in exactly one page's window |
| Pagination.TotalPages | src/app/page.tsx:47 | no pages exactly when there are no properties; otherwise `(totalPages-1)*6 < total <= totalPages*6` |
| Pagination.Paginate | src/app/page.tsx:38-49 | the page's window and flags; its contract is carried by `NavigationFlags`, `SixPropertiesOnePage` and `ShownRangeOfQuery` |
| Pagination.NavigationFlags | src/app/page.tsx:47-49 | there is a previous page iff the window starts after the first property, and a next page iff some property lies past the window |
| Pagination.SixPropertiesOnePage | src/app/page.tsx:47-49 | six properties make one page, with neither a previous nor a next page |
| Pagination.ShownRange | src/app/page.tsx:104-105 | the two numbers of the "Showing" line; its contract is carried by `ShownRangeOfQuery` |
| Pagination.ShownRangeOfQuery | src/app/page.tsx:104-105 | when the query returns the slice `[start, end)`, the "Showing" line names exactly those properties, numbered from 1; on an empty page it reads 0 to total; never beyond total |
| Pagination.PageList | src/app/page.tsx:61-91 | the page-number list; its contract is carried by `PaginationNumbers`, `PageListEnds`, `PageListIncreasing`, `PageListMembers`, `PageListGaps` and the examples |
| Pagination.PaginationNumbers | src/app/page.tsx:61-91 | the loop and pushes build exactly `PageList(currentPage, totalPages)` |
| Pagination.PageListLayout | src/app/page.tsx:66-88 | where page 1, the markers, the window and the last page sit in the list, and its length |
| Pagination.PageListAt | src/app/page.tsx:73-88 | what stands at each index of the list; everything outside the window is page 1, a marker or the last page |
| Pagination.PageListEnds | src/app/page.tsx:66-88 | for a current page in range, 1 to 9 entries, starting with page 1 and ending with the last page |
| Pagination.PageListIncreasing | src/app/page.tsx:69-88 | page numbers strictly increase, so no page is listed twice |
| Pagination.PageListMembers | src/app/page.tsx:66-88 | a page is listed iff it lies in `[1, totalPages]` and is page 1, the last page, or within 2 of the current one |
| Pagination.PageListGaps | src/app/page.tsx:73-88 | a marker is never first or last and stands between two page numbers more than 1 apart; adjacent page numbers differ by 1 |
| Pagination.NoPagesExample | src/app/page.tsx:47-88 | no properties: no pages and an empty list |
| Pagination.OnePageExample | src/app/page.tsx:61-91 | page 1 of 1 lists only page 1 |
| Pagination.MiddlePageExample | src/app/page.tsx:61-91 | page 5 of 20 lists 1, marker, 3 to 7, marker, 20 |
| Pagination.LastPageExample | src/app/page.tsx:61-91 | page 10 of 10 lists 1, marker, 8, 9, 10 |
| Pagination.FivePagesExample | src/app/page.tsx:61-91 | page 1 of 5 lists 1, 2, 3, marker, 5 |
| Pagination.FewPagesAllListed | src/app/page.tsx:61-91 | with at most four pages every page is listed, in order, without a marker |
| Pagination.PastLastPageExample | src/app/page.tsx:61-91 | a current page beyond the last (100 of 3) lists page 1 and a marker only |
| Slug.LowerCase | src/app/api/listings/route.ts:19 | same length; each upper-case ASCII letter becomes its own lower-case letter (code point + 32); every other character is unchanged |
| Slug.RemoveDisallowedFacts | src/app/api/listings/route.ts:20 | what remains is allowed (`[\w\s-]`) and came from the text; an allowed first or last character stays first or last |
| Slug.RemoveDisallowed | src/app/api/listings/route.ts:20 | the removal itself; its contract is carried by `RemoveOne`, `RemoveAppend`, `RemoveDisallowedFacts` and `RemoveAllowed` |
| Slug.RemoveOne | src/app/api/listings/route.ts:20 | a single character is kept exactly when it is in `[\w\s-]` |
| Slug.RemoveAppend | src/app/api/listings/route.ts:20 | the removal of a concatenation is the concatenation of the removals, so the allowed characters are kept in order, hyphens included, and nothing else |
| Slug.RemoveKeepsHyphen | src/app/api/listings/route.ts:20 | `"a-#b"` becomes `"a-b"`: the hyphen next to a removed character stays |
| Slug.RemoveAllowed | src/app/api/listings/route.ts:20 | a text of allowed characters only is unchanged |
| Slug.Squeeze | src/app/api/listings/route.ts:21 | the run replacement, given whether a run is open; its contract is carried by `SqueezeNoSpace`, `SqueezeAppend`, `SqueezeRun` and `CollapseSpacesFacts` |
| Slug.CollapseSpaces | src/app/api/listings/route.ts:21 | `replace(/\s+/g, "-")`; its contract is carried by `CollapseRun`, `CollapseLast` and `CollapseSpacesFacts` |
| Slug.SqueezeNoSpace | src/app/api/listings/route.ts:21 | a text without white space is unchanged by the run replacement |
| Slug.SqueezeAppend | src/app/api/listings/route.ts:21 | replacing runs distributes over concatenation, given whether the first part ended inside a run |
| Slug.SqueezeRun | src/app/api/listings/route.ts:21 | a run of white space becomes one `-` (nothing if it continues a run) |
| Slug.CollapseSpacesFacts | src/app/api/listings/route.ts:21 | no white space remains; every character is `-` or came from the text; an outer space becomes an outer `-` |
| Slug.CollapseLast | src/app/api/listings/route.ts:21 | the last character is `-` iff the text ends in white space, and otherwise the text's last character |
| Slug.CollapseRun | src/app/api/listings/route.ts:21 | each maximal run of white space between two other characters becomes exactly one `-` |
| Slug.GenerateSlug | src/app/api/listings/route.ts:17-23 | `generateSlug`; its contract is carried by `SlugAlphabet`, `SlugLength`, `SlugIdempotent`, `SlugKeepsOuterSpace` and the examples |
| Slug.SlugAlphabet | src/app/api/listings/route.ts:17-23 | the slug consists of `a-z`, `0-9`, `_` and `-` only and has no white space; the final trim changes nothing |
| Slug.SlugLength | src/app/api/listings/route.ts:17-23 | the slug is never longer than the title |
| Slug.SlugIdempotent | src/app/api/listings/route.ts:17-23 | the slug of a slug is itself |
| Slug.SlugKeepsOuterSpace | src/app/api/listings/route.ts:21-22 | a title starting (ending) with white space gives a slug starting (ending) with `-` |
| Slug.PunctuationLower | src/app/api/listings/route.ts:19 | `"Hi #1!"` lower-cases to `"hi #1!"` |
| Slug.PunctuationRemove | src/app/api/listings/route.ts:20 | `"hi #1!"` loses `#` and `!` |
| Slug.PunctuationCollapse | src/app/api/listings/route.ts:21 | `"hi 1"` becomes `"hi-1"` |
| Slug.PunctuationExample | src/app/api/listings/route.ts:17-23 | the slug of `"Hi #1!"` is `"hi-1"` |
| Slug.OuterSpaceLower | src/app/api/listings/route.ts:19 | `" Hi "` lower-cases to `" hi "` |
| Slug.OuterSpaceRemove | src/app/api/listings/route.ts:20 | `" hi "` keeps every character |
| Slug.OuterSpaceCollapse | src/app/api/listings/route.ts:21 | `" hi "` becomes `"-hi-"` |
| Slug.OuterSpaceExample | src/app/api/listings/route.ts:17-23 | the slug of `" Hi "` is `"-hi-"`: the trim does not remove the hyphens |
| Slug.SingleLetterExample | src/app/api/listings/route.ts:17-23 | the slug of `"A"` is `"a"` |
| Slug.NonAsciiSpaceExample | src/app/api/listings/route.ts:19-21 | a no-break space in `"a\u00A0b"` survives lower-casing and the removal, and becomes `-`, giving `"a-b"` |
| RichText.FreshKey | src/components/PropertyForm.tsx:136 | every supplied key is non-empty |
| RichText.FreshKeyInjective | src/components/PropertyForm.tsx:136-173 | different supply positions give different keys |
| RichText.NormalizeChild | src/components/PropertyForm.tsx:157-176 | one child, dispatching on span or other object; its contract is carried by `ChildrenShape` and `ChildrenKeys` |
| RichText.NormalizeChildren | src/components/PropertyForm.tsx:157-176 | the children in order; its contract is carried by `ChildrenShape`, `ChildrenKeys` and `NormalizedChildrenFixed` |
| RichText.NormalizeBlock | src/components/PropertyForm.tsx:151-177 | one block; its contract is carried by `BlocksShape` and `BlocksKeys` |
| RichText.NormalizeBlocks | src/components/PropertyForm.tsx:151-177 | the blocks in order; its contract is carried by `BlocksShape`, `BlocksKeys` and `NormalizedBlocksFixed` |
| RichText.DefaultValue | src/components/PropertyForm.tsx:132-148 | the default paragraph; its contract is carried by `EnsureKeysEmpty` |
| RichText.EnsureKeys | src/components/PropertyForm.tsx:129-178 | `ensureKeys`; its contract is carried by `EnsureKeysShape`, `EnsureKeysEmpty`, `EnsureKeysKeys`, `EnsureKeysUnique`, `EnsureKeysNormalized` and `EnsureKeysIdempotent` |
| RichText.ChildrenShape | src/components/PropertyForm.tsx:157-176 | same number and order of children; each conforms: key kept or filled, span text, marks and type defaulted, other children unchanged but for the key |
| RichText.BlocksShape | src/components/PropertyForm.tsx:151-177 | same number and order of blocks, each conforming to its input block |
| RichText.EnsureKeysShape | src/components/PropertyForm.tsx:151-177 | for a non-empty value: same blocks in the same order; type "block"; style kept or "normal"; markDefs kept or `[]`; children kept or `[]`, normalised in order; other fields unchanged |
| RichText.EnsureKeysEmpty | src/components/PropertyForm.tsx:132-148 | an absent or empty value gives one "normal" block with no mark definitions holding one empty span without marks; the block and span get two different fresh keys |
| RichText.ChildrenKeys | src/components/PropertyForm.tsx:157-176 | the children's new keys are their old keys with the missing ones filled in by the supply, which moves on by that many |
| RichText.BlocksKeys | src/components/PropertyForm.tsx:151-177 | the same for all block and child keys, in visiting order |
| RichText.EnsureKeysKeys | src/components/PropertyForm.tsx:153-173 | the output's keys are the input's keys with the missing or empty ones filled in from the supply, in order; the supply moves on by their number |
| RichText.AssignAppend | src/components/PropertyForm.tsx:151-177 | filling in keys distributes over concatenation |
| RichText.AssignAt | src/components/PropertyForm.tsx:153-173 | a present key is kept unchanged; a missing one gets the supply's key after the missing keys to its left, and only then is a key drawn |
| RichText.AssignFrom | src/components/PropertyForm.tsx:153-173 | every filled-in key comes from the stretch of the supply used by this call |
| RichText.AssignLength | src/components/PropertyForm.tsx:151-177 | filling in keys keeps their number |
| RichText.AssignTruthy | src/components/PropertyForm.tsx:153-173 | every key after filling in is present and non-empty |
| RichText.MissingPrefix | src/components/PropertyForm.tsx:153-173 | a missing key is counted among the missing keys |
| RichText.AssignDistinct | src/components/PropertyForm.tsx:136-173 | distinct present keys that the supply will not produce, plus fresh keys, give pairwise different keys |
| RichText.EnsureKeysUnique | src/components/PropertyForm.tsx:136-173 | under that condition, every block and child key of the output is present, non-empty and unique |
| RichText.EnsureKeysNormalized | src/components/PropertyForm.tsx:132-177 | every output has a key on each block and child, type "block", a non-empty style, markDefs, children, and span text and marks |
| RichText.NormalizedChildrenFixed | src/components/PropertyForm.tsx:157-176 | normalised children are unchanged and draw no key |
| RichText.NormalizedBlocksFixed | src/components/PropertyForm.tsx:151-177 | normalised blocks are unchanged and draw no key |
| RichText.EnsureKeysIdempotent | src/components/PropertyForm.tsx:151-177 | applying `ensureKeys` to its own output changes nothing and draws no key, wherever the supply stands |
| Listings.HasRequiredFields | src/app/api/listings/route.ts:9 | the required-field check; its contract is carried by `RejectsMissingFields` and `FalsyFieldsRejected` |
| Listings.NewDocument | src/app/api/listings/route.ts:25-55 | `newDoc`; its contract is carried by `DocumentFields`, `DocumentImage` and `DocumentDescription` |
| Listings.Post | src/app/api/listings/route.ts:4-67 | the handler; its contract is carried by `RejectsMissingFields`, `ValidRequestSubmits` and `StatusCodes` |
| Listings.RejectsMissingFields | src/app/api/listings/route.ts:9-14 | 400 "Missing required fields" exactly when the body is readable but title, location or price is missing or falsy; then nothing reaches the store |
| Listings.FalsyFieldsRejected | src/app/api/listings/route.ts:9-14 | an empty title, an empty location or a price of 0 is rejected with 400 |
| Listings.ValidRequestSubmits | src/app/api/listings/route.ts:25-65 | a valid body hands the store exactly the built document; 200 with the store's document on success, 500 "Failed to save listing" on failure |
| Listings.StatusCodes | src/app/api/listings/route.ts:4-67 | the status is 200, 400 or 500, and 200 exactly when the store accepted a document |
| Listings.DocumentFields | src/app/api/listings/route.ts:25-33 | type "property", published, title, location and price from the body; `slug.current` is the title's slug, URL-safe and no longer than the title |
| Listings.DocumentImage | src/app/api/listings/route.ts:46-54 | the image field is present iff `imageAssetId` is truthy, and then refers to that asset |
| Listings.DocumentDescription | src/app/api/listings/route.ts:34-44 | the description is one block holding one span whose text is the body's description if truthy, else `""` |
| Listings.EditorDescription | src/components/PropertyForm.tsx:151-177 | `ensureKeys` on such a description gives the block key, style and mark definitions, and the span its key and marks, keeping the text |
| Listings.DescriptionOpensInEditor | src/app/api/listings/route.ts:34-44 | a created listing's description, opened in the editor, is one "normal" paragraph with one span holding the same text, drawing two keys |
| Listings.SimpleListingExample | src/app/api/listings/route.ts:9-55 | title "A", location "B", price 100 submits the published property "A" with slug "a" and no image |
| Listings.FormBody | src/components/PropertyForm.tsx:42-48 | the body the route reads from the form's request as both are written: no `imageAssetId`, because the form sends the image as `image` |
| Listings.FormImageDropped | src/app/api/listings/route.ts:46-54 | as written, a document created from the form never has an image, whatever was uploaded |
| Listings.FormImageDroppedExample | src/components/PropertyForm.tsx:77-86 | a valid form with the uploaded asset `image-a` creates a property without an image |
| Listings.FormBodyWithAsset | src/components/PropertyForm.tsx:110-113 | the intended request: the form also sends the uploaded asset id as `imageAssetId` |
| Listings.FormImageKept | src/app/api/listings/route.ts:46-54 | with the asset id sent, the created document has an image exactly when one was uploaded, referring to that asset |

## Left out

- JSX markup, CSS classes, links, images, router navigation, and the rule
  that the pagination bar shows only when there is more than one page.
  These are presentation only.
- The content store: the GROQ query on `src/app/page.tsx:10-24` (taken as
  returning the slice `[start, end)` of the ordered published properties,
  with a non-negative start), `client.fetch`, and `client.create`. The store
  is a function parameter of `Listings.Post`. The upload route and the
  delete button are not part of this model.
- GROQ slices with a negative start, which `?page=-1` produces. Their
  meaning in the store is not modelled; `Pagination.ShownRangeOfQuery`
  requires a current page of at least 1.
- `formatPrice`: it relies on `Intl.NumberFormat` locale formatting.
- `nanoid()` randomness. It is modelled as a counter-based key supply, so
  collision resistance is replaced by the supply never repeating a key.
- Pagination.ParseNumber: models `Number()` only for an optionally signed
  run of decimal digits, after JavaScript white space is trimmed. It reads
  every digit string exactly, while `Number` rounds to a double: a digit
  string above 2^53 can become a nearby even number, and one of about 310
  digits or more becomes `Infinity`. Fractions,
  exponents, hex, binary and octal literals, and `Infinity` are treated like
  any other non-number (NaN, so page 1); JavaScript would read some of them
  as numbers.
- Pagination.TotalPages: uses exact integer division in place of the
  floating-point `Math.ceil(total / 6)`. The two agree for every count the
  store can return.
- Slug.LowerCase: lower-cases ASCII letters only. JavaScript's
  `toLowerCase` also maps other letters, and two of them (U+0130 and the
  Kelvin sign U+212A) become ASCII letters in `\w`. The model keeps every
  non-ASCII character unchanged. The removal then drops it unless it is
  white space, which becomes `-` as in the source
  (`Slug.NonAsciiSpaceExample`).
- Pagination.CurrentPageParses: because of that rounding, it holds of the
  source only for `|n| <= 2^53`.
- Pagination.ParseDigits: for the same reason, it holds of the source only
  when the digits denote at most 2^53.
- Pagination.ParseNegative: for the same reason, it holds of the source
  only when the digits denote at most 2^53.
- Pagination.ParseTrimmed: it is `Pagination.ParseNumber` without the trim,
  so it has the same limits. Fractions, exponents, hex, binary and octal
  literals and `Infinity` become NaN, and digit strings above 2^53 are read
  exactly, with no rounding to a double.
- Pagination.ParseTrimmedDigits: for the same rounding reason, it holds of
  the source only when the digits denote at most 2^53.
- Pagination.ParseTrimmedNegative: for the same rounding reason, it holds
  of the source only when the digits denote at most 2^53.
- Listings.Post: the price is an integer or absent. `parseInt` on strings,
  fractions or very large numbers is not modelled. Title, location,
  `description` and `imageAssetId` are strings or absent; JSON values of
  other types in these fields are not modelled. A negative price passes
  validation, exactly as in the source.
- Listings.FormBody: the form posts its description as a block array. The
  route's `body.description || ""` then stores that array as the span's
  text, which the string-typed span text here cannot hold. So the body
  built from the form carries no description, and only its image and
  required fields follow the form.
- The `console.error` logging in the route's error path is output only and
  is not modelled.
- The form's submit and upload handlers in `src/components/PropertyForm.tsx`
  are not part of this model beyond the request body they produce
  (`Listings.FormBody`): no fetch, no loading flags, no navigation. Field
  values other than keys, style, mark definitions, children, text and marks
  are opaque: strings in a map that is carried along unchanged.
- RichText.EnsureKeysUnique: distinct output keys are proved only when the
  input's present keys are distinct and none of them is one the supply
  will produce. `ensureKeys` itself never checks for duplicate keys.

## Findings

| source | as written | input that shows it | evidently intended | confidence | as-written member | corrected member |
|---|---|---|---|---|---|---|
| src/components/PropertyForm.tsx:110-113 with src/app/api/listings/route.ts:46 | the form sends the uploaded image as `image`, a reference object, but the route builds the image field only from `body.imageAssetId`, which the form never sends | a valid form (title "A", location "B", price 100) after uploading the asset `image-a` | the created property refers to the uploaded asset | high, from the source text; not executed | Listings.FormImageDropped | Listings.FormImageKept |
