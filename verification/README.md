# KossLinkShortener in Dafny

A model of the KossLinkShortener URL shortener: three request handlers over a
table of short-code rows plus a counter row, and one queue of hit messages.

- `ShortenUrl` rejects a blank `href`, creates the counter row lazily at 1024,
  lower-cases the URL and returns the code of a row that already holds it;
  otherwise it encodes the counter value as a short code, bumps the counter and
  inserts a new row (`RequestCount` 0) under that code.
- `Redirect` upper-cases the code and looks it up by partition key (first
  letter) and row key (the code). On a hit it redirects to the stored URL and
  enqueues the code once; on a miss it redirects to `https://www.google.com/`.
- `ProcessRedirectsQueue` adds one to `RequestCount` of the row a queue
  message names, and ignores unknown codes.

The short code is positional base 26 over `A`..`Z` with `A` as the digit 0: the
loop collects `id % 26` letters least-significant first and then reverses them.
This is plain positional notation, not bijective base 26: `A` is a real zero
digit, the id 0 encodes to the empty string, and 1024 encodes to `BNK`.

Layout:

- `wrappers.dfy`: `Option`.
- `text.dfy`: `String.IsNullOrWhiteSpace` (the .NET white-space set) and ASCII `ToLower`/`ToUpper`.
- `short_code.dfy`: the encoder loop (`EncodeId`), its specification `Code`, the decoder `Decode` and the round-trip lemmas.
- `entities.dfy`: the `UrlData` row.
- `functions.dfy`: the pure hit-count functions, the table invariant `Consistent`, and the class `UrlStore` that holds the table (`rows`, `urlKey`) and the queue and carries the handlers as methods.
- `scenarios.dfy`: properties of several calls in a row, proved from the handlers' contracts.

The table invariant `Consistent` holds between handler calls. It says:

- every row is keyed by its code, with partition key = first letter;
- stored URLs are lower-case and pairwise distinct;
- `RequestCount` is never negative;
- every code was produced by the encoder from a counter value in [1024, counter).

Together with the decoder round trip, the last point shows that the code of
the counter's current value is never already in the table. So codes are never
reused, and the row insert of `ShortenUrl` cannot collide with an existing row.

## Model

| member | source | states |
|---|---|---|
| `ShortCode.AlphabetAt` | KossLinkShortener/Functions.cs:60 | the alphabet holds the capital letters A..Z in order, letter d at index d |
| `ShortCode.Code` | KossLinkShortener/Functions.cs:58-66 | a code consists of capital letters only, and is empty exactly when the id is not positive (the loop never runs) |
| `ShortCode.Decode` | KossLinkShortener/Functions.cs:58-66 | reading letters as base-26 digits most significant first; a string of letters not starting with `A` reads as a positive number |
| `ShortCode.EncodeId` | KossLinkShortener/Functions.cs:58-66 | the mod/div loop followed by the reversal produces exactly `Code(id)` |
| `ShortCode.Reversed` | KossLinkShortener/Functions.cs:66 | `s.Reverse()`: same length, the i-th character of the result is the i-th character from the end of the input |
| `ShortCode.DecodeCode` | KossLinkShortener/Functions.cs:58-66 | decoding the code of any id >= 0 gives the id back |
| `ShortCode.CodeInjective` | KossLinkShortener/Functions.cs:58-66 | distinct ids >= 0 have distinct codes |
| `ShortCode.CodeLeadingLetter` | KossLinkShortener/Functions.cs:58-69 | a positive id has a non-empty code whose first letter is not `A`, so `s[0]` (the partition key) exists |
| `ShortCode.CodeDecode` | KossLinkShortener/Functions.cs:58-66 | every letter string without a leading `A` is the code of the number it decodes to: the encoding is onto such strings |
| `ShortCode.FirstCode` | KossLinkShortener/Functions.cs:39-66 | the initial counter value 1024 encodes to `BNK` |
| `Text.IsWhiteSpace` | KossLinkShortener/Functions.cs:33 | the .NET `Char.IsWhiteSpace` set: space, U+0009..U+000D, U+0085, U+00A0, U+1680, U+2000..U+200A, U+2028, U+2029, U+202F, U+205F, U+3000 |
| `Text.IsNullOrWhiteSpace` | KossLinkShortener/Functions.cs:33 | `String.IsNullOrWhiteSpace`: the value is absent, or every character of it is white space (so the empty string counts) |
| `Text.ToLower` | KossLinkShortener/Functions.cs:46 | same length, each ASCII capital replaced by its small letter, every other character unchanged |
| `Text.ToUpper` | KossLinkShortener/Functions.cs:100 | same length, each ASCII small letter replaced by its capital, every other character unchanged |
| `Text.ToLowerIdempotent` | KossLinkShortener/Functions.cs:46 | lower-casing a lower-cased URL changes nothing |
| `Text.BlankIgnoresCase` | KossLinkShortener/Functions.cs:33-46 | two case variants of a string are either both blank or both non-blank |
| `Text.UpperUndoesLower` | KossLinkShortener/Functions.cs:100 | upper-casing a code made of capital letters, or its all-lower-case form, gives the code back |
| `Text.UpperAnyVariant` | KossLinkShortener/Functions.cs:100 | upper-casing any case variant of a code made of capital letters, mixed case included, gives the code back |
| `Entities.NewRow` | KossLinkShortener/Functions.cs:67-72 | the new mapping row: partition key = first letter of the code, row key = the code, the lower-cased URL, request count 0 |
| `Functions.Found` | KossLinkShortener/Functions.cs:101-105 | the point lookup by `(code[0], code)` hits exactly when the code is non-empty, is a row key, and that row's partition key is its first letter |
| `Functions.Retrieve` | KossLinkShortener/Functions.cs:121-124 | returns the row exactly when that row key and partition key both match, and nothing otherwise |
| `Functions.HasUrl` | KossLinkShortener/Functions.cs:47-50 | the `Url eq href` query has a result: some row stores exactly that URL |
| `Functions.NextCodeIsFresh` | KossLinkShortener/Functions.cs:58-77 | in a consistent table, the code of the counter's value is not yet a row key |
| `Functions.AllocationKeepsConsistent` | KossLinkShortener/Functions.cs:58-77 | inserting the new row under the next code with counter + 1 keeps the table consistent: keys, partition keys, lower-case and distinct URLs, issued codes |
| `Functions.Hit` | KossLinkShortener/Functions.cs:121-129 | one hit message keeps the key set, leaves every other row as it was, and adds 1 to the named row's count exactly when the point lookup finds it |
| `Functions.HitKeepsConsistent` | KossLinkShortener/Functions.cs:121-129 | a hit message keeps the table consistent |
| `Functions.ApplyHits` | KossLinkShortener/Functions.cs:116-129 | the queue trigger's deliveries in order: each message applied as one `Hit`, oldest first |
| `Functions.ApplyHitsKeys` | KossLinkShortener/Functions.cs:116-129 | processing any sequence of hit messages neither adds nor removes rows |
| `Functions.ApplyHitsCounts` | KossLinkShortener/Functions.cs:116-129 | after a sequence of hit messages, a row's count has grown by the number of messages naming it and the rest of the row is unchanged |
| `Functions.ApplyHitsOrderIrrelevant` | KossLinkShortener/Functions.cs:116-129 | the same messages delivered in any order give the same table |
| `Functions.UrlStore.constructor` | KossLinkShortener/Functions.cs:37-42 | an empty table without a counter row (the state the lazy counter creation starts from) and an empty queue satisfy the invariant |
| `Functions.UrlStore.ShortenUrl` | KossLinkShortener/Functions.cs:18-83 | blank href: BadRequest, nothing changes; otherwise the counter exists afterwards (created at 1024 if absent); a stored lower-cased URL: its code is returned and no row changes; a new URL: `Code(counter)` is returned, that code was not a key, exactly one row (partition = first letter, URL lower-cased, count 0) is added and the counter goes up by 1; the queue is untouched and the invariant is kept |
| `Functions.UrlStore.Redirect` | KossLinkShortener/Functions.cs:87-112 | blank code: BadRequest and no message; otherwise the code is upper-cased and a hit redirects to the stored URL and appends exactly that code to the queue, while a miss redirects to `https://www.google.com/` and leaves the queue as it was; the table is never modified |
| `Functions.UrlStore.ProcessRedirectsQueue` | KossLinkShortener/Functions.cs:116-130 | the table becomes `Hit(old table, code)`: +1 on the matching row, nothing else changes, no-op on a miss; counter and queue untouched |
| `Functions.UrlStore.DeliverNext` | KossLinkShortener/Functions.cs:116-117 | the queue trigger removes the oldest message and applies it as one hit |
| `Functions.UrlStore.Drain` | KossLinkShortener/Functions.cs:116-130 | processing the queue until it is empty leaves the table equal to `ApplyHits(old table, old queue)`, so `ApplyHitsCounts` and `ApplyHitsOrderIrrelevant` apply to the store |
| `Scenarios.ShortenTwice` | KossLinkShortener/Functions.cs:46-55 | shortening a URL and then any case variant of it returns the same response both times, a code exactly when the URL is not blank; the second call changes neither the rows nor the counter |
| `Scenarios.ResolveAfterShorten` | KossLinkShortener/Functions.cs:58-111 | a just-issued code, even typed in lower case, resolves to the lower-cased URL and enqueues exactly that code once |
| `Scenarios.DistinctUrlsDistinctCodes` | KossLinkShortener/Functions.cs:46-79 | two URLs that differ beyond letter case receive different codes |
| `Scenarios.ResolveThenDrain` | KossLinkShortener/Functions.cs:97-129 | resolving a stored code typed in any case redirects to its URL, and after the queue is processed its count has grown by the hits already pending plus one |
| `Scenarios.FirstShortening` | KossLinkShortener/Functions.cs:37-79 | on an empty table, shortening `Example.com/Page` returns `BNK` |

## Left out

- Azure Functions bindings, HTTP routing and logging. Results are the datatype `Response`, named after the three `IActionResult` kinds.
- Request parsing (Functions.cs:27-31): the query parameter, the JSON body and which one wins are outside the model. `href` is an optional string input.
- The Cosmos table client (`TableQuery`, `TableOperation`, ETags, storage failures and retries). The table is a map from row key to row, and the counter row is an optional integer.
- `First()` over the URL query has no defined scan order. `ShortenUrl` may return any row holding the URL, though the invariant makes that row unique.
- Concurrency between invocations: the non-atomic counter read/replace, the duplicate-URL race, and at-least-once or reordered queue delivery. Handlers run one at a time. `DeliverNext` and `Drain` deliver in order, exactly once; `ApplyHitsOrderIrrelevant` covers reordering.
- Culture-sensitive `ToLower`/`ToUpper`: only ASCII letters change case.
- Functions.UrlStore.ShortenUrl: the 32-bit `Id` and its wrap-around at `urlKey.Id++` are not modelled. The counter is an unbounded integer.
- Functions.UrlStore.ProcessRedirectsQueue: the 32-bit `RequestCount` is an unbounded integer. An empty message, on which the source throws at `shortUrl[0]`, is excluded by a precondition. The invariant shows that every message `Redirect` enqueues is non-empty.
- Functions.UrlStore.ShortenUrl: like every handler, it requires the table invariant. Tables these handlers could not have produced are not modelled: duplicate URLs, rows not issued by the counter, or rows without a counter row. In such a table the source's row insert could fail on an existing key.
