# Duplicate-free NFT sale and mint notifications

This project models the core of a bot that watches an XRP Ledger NFT issuer. It polls a
marketplace API for recent sales and a ledger node for the issuer's recent transactions,
and posts each new sale or mint to a Telegram chat once. The model covers:

- **The "seen" stores** (`store.dfy`, module `Dedup`). There is one store for sales and one
  for mints. Each pairs a bounded deque of transaction hashes (Python's
  `deque(maxlen=2000)`) with an unbounded set that answers "seen before?". The deque keeps
  the most recent 2000 hashes. Appending to a full deque silently drops the oldest one.
  The eviction loop in `remember_sale`/`remember_mint` only runs when the deque holds more
  than 2000 hashes, which never happens, so the set keeps every hash ever remembered.
  The model follows the code as written here. `Store` is the specification as a value,
  and the class `SeenStore` is the mutable object whose methods are proved against it.
- **Seeding and polling** (`poll.dfy`, module `Polling`).
  - At start-up, every sale hash the marketplace currently lists is remembered, in list
    order, and nothing is announced.
  - Each poll walks its batch in the reverse of the order the API returns. It skips
    records with a missing or empty hash and hashes already seen. It announces each
    remaining one and remembers it at once, so a hash repeated in one batch is announced
    only once.
  - The mint poll considers only `NFTokenMint` transactions.
  - Mint hashes are never seeded.
  - `Walk` is the shared specification of the seed and the polls. The methods `Seed`,
    `PollSales` and `PollMints` run the source's loops against a `SeenStore`, and their
    postconditions tie them to `Walk`.
  - "Announce" is modelled as the list of hashes a poll returns, in the order it posts them.
- **The text helpers** (`hex.dfy`, `utf8.dfy`, `text.dfy`, `escape.dfy`).
  - `abbr` shortens a string to five characters plus `...`.
  - `decode_uri` turns a hex-encoded token URI into a link. It decodes the hex with the
    whitespace rules of `bytes.fromhex` and then decodes UTF-8, dropping malformed
    sequences the way CPython's `errors="ignore"` does. It strips NULs from both ends,
    percent-encodes with `urllib.parse.quote(..., safe=":/?&=%")`, and rewrites
    `ipfs://CID` to the public gateway `https://ipfs.io/ipfs/CID`.
  - Before an image link is sent, each `#` in it is replaced by `%23` (module `Escape`).
- **Enrichment** (`enrich.dfy`, module `Enrich`).
  - The item name and image link come from the token URI and the metadata it points to.
  - When the metadata gives no name, a sale falls back to the abbreviated token id and a
    mint falls back to "Unknown NFT".
  - A mint's ledger time counts from 2000-01-01 (the Ripple epoch), so 946684800 seconds
    are added to turn it into Unix time.

`base.dfy` holds `Option`, the byte type and Python truthiness of an optional string.

## Model

| member | source | states |
|---|---|---|
| Dedup.SeenStore.Load | main.py:77-81 | the stores built from the persisted lists hold the last 2000 hashes of each list in order, and their sets hold exactly the deque's hashes |
| Dedup.SeenStore.Remember | main.py:83-99 | remembering a new hash adds it to the set and appends it to the deque as the newest entry, dropping the oldest when full; remembering a known hash changes nothing; the store stays consistent |
| Dedup.Loaded | main.py:78-81 | loading keeps at most 2000 hashes, keeps the last 2000 of the list, and the set equals the deque's elements |
| Dedup.Remembered | main.py:83-99 | the set grows by exactly the hash; a known hash leaves the store unchanged; a new hash is appended to the deque as a bounded append; consistency (deque within 2000 and inside the set) is preserved |
| Dedup.Append | main.py:85 | a hash appended to a bounded deque always ends up as its newest entry |
| Dedup.AppendWithRoom | main.py:85 | appending to a deque with room adds the hash at the end and keeps everything |
| Dedup.AppendWhenFull | main.py:85 | appending to a full deque drops exactly the oldest hash |
| Dedup.AppendAllKeepsLast | main.py:78 | appending hashes one by one to a bounded deque leaves the last 2000 of the whole history, which is what building the deque from the list gives |
| Dedup.RememberedKeepsDistinct | main.py:83-86 | remembering keeps a duplicate-free deque duplicate-free (a deque loaded from a persisted list with repeats keeps those repeats) |
| Dedup.SetOutgrowsDeque | main.py:85-90 | once a duplicate-free deque is full, a new hash evicts the oldest deque entry but that hash stays in the set, and the set now holds more than 2000 hashes |
| Dedup.Snapshot | main.py:102-103 | the list persisted from a consistent store has at most 2000 hashes, all of them in the set |
| Dedup.ReloadSnapshot | main.py:101-104 | saving the deques and loading them again restores each deque exactly, while the rebuilt set may lose hashes the deque had already dropped |
| Polling.Persisted | main.py:101-104 | loading the persisted state gives back both deques exactly |
| Polling.Walk | main.py:211-216 | the walk specification: a missing or empty hash and a hash already in the set are skipped, any other is announced and remembered at once; gives the announcements and the final store (its guarantees are the `Walk*` lemmas) |
| Polling.SeedSpec | main.py:187-200 | the seed specification: a failed request leaves the store alone, otherwise the sale hashes are walked in list order and only the resulting store is kept |
| Polling.PollSalesSpec | main.py:202-216 | the sales-poll specification: a failed request announces nothing, otherwise the sale hashes are walked in the reverse of the order the API returns |
| Polling.PollMintsSpec | main.py:303-313 | the mint-poll specification: a failed request announces nothing, otherwise the transaction candidates are walked newest-last |
| Polling.Run | main.py:368-371 | successive polls: everything announced, in order, and the final store (its guarantee is `RunAtMostOnce`) |
| Polling.MintCandidate | main.py:308-311 | only an `NFTokenMint` entry gives a hash, and such an entry gives exactly its `hash` field |
| Polling.SaleHashes | main.py:193-194 | one candidate hash per sale record, in order |
| Polling.MintHashes | main.py:307-311 | one candidate per transaction entry; entries that are not `NFTokenMint` give no hash |
| Polling.WalkEmitsOnlyNew | main.py:211-216 | a poll announces no hash twice and never a hash that was already seen |
| Polling.WalkComplete | main.py:211-216 | after a poll the set holds the old set plus every non-empty hash of the batch, and what was announced is exactly the non-empty batch hashes that were not yet seen |
| Polling.WalkAllSeen | main.py:211-216 | a batch whose hashes are all already seen announces nothing and leaves the store unchanged |
| Polling.WalkKeepsDistinct | main.py:211-216 | a poll keeps a duplicate-free deque duplicate-free |
| Polling.WalkKeepsOrder | main.py:211 | announcements come in the reverse of the order the API returns |
| Polling.WalkFillsDeque | main.py:282 | the deque receives the announced hashes, in order, as bounded appends |
| Polling.WalkConsistent | main.py:282 | a poll keeps the store consistent |
| Polling.WalkGrowsSet | main.py:282 | a poll never forgets a hash |
| Polling.ReversedCandidates | main.py:211 | walking the reversed batch meets the same set of hashes |
| Polling.SeedRemembersEveryHash | main.py:193-196 | seeding adds to the set exactly the non-empty hashes of the listed sales |
| Polling.SeedThenPollIsQuiet | main.py:187-216 | a sales poll that sees the same list as the seed announces nothing |
| Polling.PollSalesIdempotent | main.py:202-216 | polling the same sales reply twice announces nothing the second time and leaves the store as the first poll left it |
| Polling.PollSalesAnnouncesTheNew | main.py:207-216 | a hash is announced if and only if some sale in the reply carries it, it is non-empty and it was not seen before |
| Polling.PollMintsAnnouncesTheNewMints | main.py:303-313 | a hash is announced if and only if some `NFTokenMint` entry carries it, it is non-empty and it was not seen before; other transaction types are never announced |
| Polling.RunAtMostOnce | main.py:368-371 | over any sequence of polls no hash is announced twice or announced after being seen, and the set ends as the initial set plus everything announced |
| Polling.Visit | main.py:212-216 | a missing or empty hash and a hash already seen are skipped; any other is announced and remembered, exactly as one step of the walk specification |
| Polling.RememberPresent | main.py:194-196 | a present, non-empty hash is remembered, and an absent or empty one leaves the store alone |
| Polling.Seed | main.py:187-200 | the loop over the sales, remembering every present hash in order, leaves the store as the seed specification says; a failed request changes nothing |
| Polling.PollSales | main.py:202-287 | the reversed loop announces and remembers exactly what the sales-poll specification gives, in order; a failed or empty reply does nothing |
| Polling.PollMints | main.py:289-359 | the reversed loop over transactions announces and remembers exactly what the mint-poll specification gives, in order |
| Polling.Boot | main.py:366 | start-up loads both stores from the persisted lists and seeds only the sales store |
| Polling.Cycle | main.py:368-370 | one round polls sales, then mints, each against its own store |
| Text.Abbr | main.py:109-112 | a missing or empty text gives "N/A"; text of at most five characters is kept; longer text becomes its first five characters followed by "..." |
| Text.AbbrIdempotent | main.py:109-112 | an algebraic property of `abbr`, not a step the program takes (it abbreviates each value once): abbreviating twice with a limit of at least three gives the same as once |
| Hex.FromHex | main.py:116 | hex decoding succeeds only on hex digits and ASCII whitespace, and gives one byte per two digits |
| Hex.FromHexDigits | main.py:116 | any even-length string of hex digits in either case decodes, and byte k is the value of digit 2k times 16 plus the value of digit 2k+1 |
| Hex.FromHexSkipsSpace | main.py:116 | ASCII whitespace before a hex string is skipped |
| Hex.FromHexToHex | main.py:116 | decoding the hex spelling of any byte string gives those bytes back |
| Utf8.Decode | main.py:117 | UTF-8 decoding with errors ignored never produces more characters than there were bytes |
| Utf8.DecodeEncode | main.py:117 | decoding the UTF-8 encoding of any string gives the string back |
| Utf8.DecodeAscii | main.py:117 | bytes below 0x80 decode to the same characters |
| Text.StripNul | main.py:117 | the result neither starts nor ends with NUL, and the input is that result with NULs only added at its two ends |
| Text.StripNulIdempotent | main.py:117 | an algebraic property of the NUL strip, not a step the program takes (it strips once): stripping twice is the same as once |
| Text.Quote | main.py:120 | quoting gives only unreserved characters, the safe set and `%`, and never shortens the text |
| Text.QuoteSafeIdentity | main.py:120 | text made only of safe characters is left unchanged |
| Text.QuoteIdempotent | main.py:120 | quoting an already quoted link changes nothing |
| Text.QuotePrefix | main.py:120-121 | a quoted link starts with a prefix of safe characters other than `%`, such as `ipfs://`, if and only if the original did |
| Text.IpfsToGateway | main.py:121-123 | an `ipfs://CID` link becomes `https://ipfs.io/ipfs/CID`, any other link is kept, and the result never starts with `ipfs://` |
| Text.IpfsToGatewayIdempotent | main.py:121-123 | an algebraic property of the gateway rewrite, not a step the program takes (it rewrites once): rewriting twice is the same as once |
| Escape.EscapeChar | main.py:267-268 | one character escapes to `%23` when it is `#` and to itself otherwise, never containing `#` |
| Escape.EscapeHash | main.py:267-268 | the result contains no `#`, a link without `#` is unchanged, and each `#` adds two characters |
| Escape.EscapeHashAppend | main.py:267-268 | escaping distributes over concatenation |
| Escape.EscapeHashCons | main.py:267-268 | escaping a string is escaping its first character followed by escaping the rest |
| Escape.EscapeHashChar | main.py:267-268 | `#` escapes to `%23` and any other character is kept |
| Escape.EscapeHashPrefix | main.py:267-268 | an escaped link starts with a prefix free of `#` and `%` if and only if the original did |
| Escape.EscapeHashIdempotent | main.py:171 | escaping twice (at main.py:341-342, then again when sending) is the same as once |
| Text.DecodeUri | main.py:114-124 | decoding fails exactly when the hex is invalid; a decoded link never starts with `ipfs://`, contains no `#` and has only safe characters |
| Text.DecodeUriIpfs | main.py:114-123 | a URI that reads `ipfs://CID` decodes to the gateway link of the quoted CID |
| Text.DecodeUriPlain | main.py:114-124 | any other URI decodes to its quoted text |
| Text.DecodeUriOfEncoded | main.py:114-124 | the hex of the UTF-8 encoding of a link with no NUL at its ends decodes to the quoted, gateway-rewritten link |
| Enrich.ImageField | main.py:249 | the image field is the first non-empty one of `image`, `image_url`, `imageUrl`, and there is none exactly when all three are missing or empty |
| Enrich.FinalImage | main.py:267-268 | the image sent has every `#` escaped, and is present exactly when one was found |
| Enrich.UsableUri | main.py:243-245 | a token URI is used only when it is present, non-empty and decodes to a non-empty link |
| Enrich.Resolve | main.py:242-253 | an unusable URI gives neither name nor image; a usable one with a failed or empty metadata reply gives the decoded URI as image and no name; otherwise the name is the metadata's `name` and the image is the image field rewritten from `ipfs://`, present exactly when the field is; a found image is non-empty and never starts with `ipfs://` |
| Enrich.EnrichSale | main.py:240-268 | a sale's name is the resolved name when that is non-empty and the abbreviated token id otherwise, never empty; its image is the resolved image with `#` escaped |
| Enrich.EnrichMint | main.py:318-342 | a mint's name is the resolved name when that is non-empty and "Unknown NFT" otherwise; its image is the resolved image with `#` escaped |
| Enrich.SentImageIsNeverIpfs | main.py:249-268 | for any token URI and metadata reply, the image link sent for a sale or a mint never starts with `ipfs://` |
| Enrich.EscapeKeepsNonIpfs | main.py:341-342 | escaping `#` cannot turn a link into an `ipfs://` one |
| Enrich.NonStringMetadata | main.py:326-334 | metadata that is a non-empty object with no string value is still truthy: a mint gets "Unknown NFT" and a sale its abbreviated token id, with no image and without falling back to the token URI |
| Enrich.InvalidUriFallsBack | main.py:243-245 | a URI that is not valid hex gives the fallback name and no image, whatever the metadata |
| Enrich.IpfsUriWithoutMetadata | main.py:322-332 | when the metadata fetch fails, a token URI reading `ipfs://CID`, with a CID of characters that quoting keeps, is shown as the gateway link of that CID, for a mint and for a sale alike |
| Enrich.ResolveIpfsImage | main.py:249-251 | an `ipfs://CID` image field resolves to the gateway link `https://ipfs.io/ipfs/CID` |
| Enrich.IpfsImageLink | main.py:249-251 | an `ipfs://` image link found under any of the three image keys of the metadata is rewritten to the gateway and then escaped, for a sale and for a mint alike |
| Enrich.RippleEpochIsYear2000 | main.py:316 | the added 946684800 seconds are exactly the days from 1970-01-01 to 2000-01-01 |
| Enrich.MintUnixTime | main.py:315-316 | a mint has a time exactly when its ledger date is present and non-zero, and that time is the number of seconds from 1970-01-01 to 2000-01-01 plus the ledger date |

## Left out

- HTTP requests, sessions and retry policy: each reply is a parameter (`Reply`, the metadata `Option<Metadata>`), and a failed request is `Failed` or `None`.
- `fetch_metadata`, `fetch_image_bytes` and `send_telegram` (including its handling of HTTP 429): network I/O. A posted notification is the hash a poll returns.
- `load_state`/`save_state`: file I/O and JSON. The persisted state is the `PersistedState` value, and `persist_now` is `Polling.Persisted`.
- Exceptions in the middle of a batch abort the rest of that poll without remembering the current hash. Examples are metadata that is a JSON list, a `nftoken` field that is `null`, or a mint `date` that is not a number. The model assumes well-typed records, so every poll completes its batch.
- JSON values that are not strings: hashes and names are modelled as optional strings only. A metadata field whose value is not a string keeps its key with the value `None`, so an object is empty exactly when Python finds it falsy.
- Price formatting (`amount` in drops divided by 1 000 000, printed as an integer or with two decimals): floating point.
- Rendering times with `strftime`/`gmtime`, including the sale's `acceptedAt`. Only the epoch shift of the mint date is modelled.
- `html.escape` of the item name and the message templates and links: presentation only.
- Configuration from environment variables, the start-up messages, the endless loop and the sleep between rounds. `Boot` and `Cycle` model one start and one round.
