# ethereum-notary client core, in Dafny

A model of the ledger-client logic of the EthNotary web client (`src/App.js`). The client
fingerprints a document with SHA-256, submits the digest as an entry of a notary contract on
Ethereum, and searches the contract's `Entry` events by signer and/or digest. Four pieces are
modelled, with the web3, truffle-contract and React calls treated as external steps whose
outcomes are parameters:

- `HexEncoding` (`hex.dfy`): `hex`, the word-wise lower-case base16 encoder (section 8 of
  RFC 4648) applied to the 32-byte SHA-256 digest (FIPS 180-4). The method `Hex` reads the
  buffer as big-endian 32-bit words (`getUint32`), renders each with `toString(16)` (modelled
  by `NumberToHex`), left-pads it to 8 digits with `"00000000"` and `slice(-8)` (`SliceLast`),
  and joins the chunks. It is proved equal to `HexOfBytes`, the per-byte reference encoding.
  `HexOfBytes` has a decoder `DecodeHex`, and the two are proved mutually inverse. A buffer
  whose length is not a multiple of 4 makes the last `getUint32` throw a `RangeError`. The
  model returns `Err(RangeError)` for it.
- `StoreCache` (`store_cache.dfy`): the `storeInstance` memo cell and `getInstance`. `Lookup`
  is one call. `Replay` is a run of calls, each paired with the outcome a resolution would
  have had. The class `InstanceCache` is the mutable cell. A ghost counter records how often
  `createStoreInstance` was started.
- `Notary` (`notary.dfy`): the `App` component's state and its `createEntry`, `findEntries`
  and `watch` callback. It covers the `"0x"` prefix added on the way to the contract and
  `slice(2)` on the way back. It also covers the filter built from the search fields and the
  fall-back to `{}` when `instance.Entry` throws. `Matches` gives the store's reading of a
  filter: every key present must equal the event's field. Whether the store accepts a filter
  is the parameter `accepts`.
- `Outcomes` (`outcomes.dfy`): `Option` and `Result`.

Behaviour of the code the model keeps:
- `getInstance` checks only the already-cached handle. Concurrent first callers each start a
  resolution, so no at-most-one-resolution property is stated.
- A missing `web3` makes `getInstance` throw: reading the undeclared global at src/App.js:16 is a `ReferenceError`, and a declared but empty `web3` fails at `web3.currentProvider` (src/App.js:29).
- When `instance.Entry({})` throws as well, no subscription is opened. The exception escapes
  the promise callback; it is not a silent success.
- A new search never closes the earlier `watch` subscriptions. `App.watches` keeps every
  subscription opened, and `OnEntry` appends an event whichever subscription delivered it.

## Model

| member | source | states |
|---|---|---|
| `HexEncoding.Hex` | src/App.js:44-60 | succeeds exactly when the byte length is a multiple of 4 (otherwise `getUint32` throws `RangeError`). On success the result, the chunks joined by `Join` (`hexCodes.join("")`), is the per-byte lower-case hex of the whole buffer, in buffer order, 2 × byteLength characters from `0-9a-f` |
| `HexEncoding.Sha256Hex` | src/App.js:38-42 | a 32-byte SHA-256 digest becomes 64 lower-case hex digits that decode back to the digest |
| `HexEncoding.HexOfBytes` | src/App.js:47-59 | the reference encoding has exactly two characters per byte, all in `0-9a-f` |
| `HexEncoding.HexOfBytesAppend` | src/App.js:55-59 | joining chunks in order: the encoding of a concatenation is the concatenation of the encodings |
| `HexEncoding.DecodeHexOfBytes` | src/App.js:47-59 | decoding the encoding of any bytes gives back those bytes |
| `HexEncoding.HexOfDecodedBytes` | src/App.js:47-59 | any string that decodes is the encoding of its decoded bytes, so the encoding is one-to-one onto what decodes |
| `HexEncoding.DecodeHexDefined` | src/App.js:51-54 | exactly the even-length strings over `0-9a-f` decode |
| `HexEncoding.GetUint32` | src/App.js:49 | the big-endian word read at offset `i` is below 2^32 |
| `HexEncoding.NumberToHex` | src/App.js:51 | `toString(16)` writes at least one digit, all in `0-9a-f`, and no leading zero for a positive value |
| `HexEncoding.SliceLast` | src/App.js:54 | `slice(-n)` keeps the last `n` characters (all of them when shorter) as a suffix of its input |
| `HexEncoding.PaddedNumberIsFixedHex` | src/App.js:51-54 | for a value below 16^k, `toString(16)` has at most k digits, and putting zeros before it gives its k-digit form |
| `HexEncoding.PaddedWordIsFixedHex` | src/App.js:53-54 | `("00000000" + value.toString(16)).slice(-8)` is the 8-digit form of any 32-bit value |
| `HexEncoding.WordFixedHex` | src/App.js:49 | the 8-digit form of a big-endian word is its four bytes' two-digit forms, most significant byte first |
| `HexEncoding.PaddedWordIsBytesHex` | src/App.js:49-55 | each chunk pushed is exactly the hex of the word's 4 bytes (8 characters, leading zeros kept) |
| `HexEncoding.LeadingZerosKept` | src/App.js:51-54 | the word 0x000000ab becomes `"000000ab"` |
| `StoreCache.Lookup` | src/App.js:17-23 | a cached handle is returned and nothing resolves. Otherwise one resolution runs and its outcome is returned, and only a successful handle is stored |
| `StoreCache.ReplayFromCached` | src/App.js:17-18 | once a handle is cached, every later call returns it, the cache keeps it, and no resolution runs |
| `StoreCache.ReplayFromEmpty` | src/App.js:17-23 | from an empty cache, calls resolve up to and including the first success and never again. Failed resolutions are not cached, so the next call retries. Later calls all get the first successful handle |
| `StoreCache.SameHandleForAll` | src/App.js:17-23 | any two calls in a run that get a handle get the same handle |
| `StoreCache.InstanceCache.constructor` | src/App.js:13 | the cell starts empty with no resolution started |
| `StoreCache.InstanceCache.GetInstance` | src/App.js:15-25 | the new cell, the answer and the resolution count follow `Lookup` on the old cell |
| `Notary.WithPrefix` | src/App.js:83 | `"0x" + h` is two characters longer, starts with `0x`, and `slice(2)` gives `h` back |
| `Notary.StripPrefix` | src/App.js:109 | `slice(2)` drops exactly the first two characters (all of a shorter string) and keeps the rest as a suffix |
| `Notary.UploadRequest` | src/App.js:81-83 | an empty digest gives no request. Otherwise the request carries `"0x"` followed by the digest, the sending account, and the 1-finney fee |
| `Notary.SearchFilter` | src/App.js:91-97 | `signer` is present iff the signer field is non-empty, and then equals it. `documentHash` is present iff the hash field is non-empty, and then equals `"0x"` + the field |
| `Notary.WatchedFilter` | src/App.js:99-105 | the requested filter is used when the store accepts it, otherwise `{}`. No subscription is opened only when both throw. The filter used never misses an event the requested one matches |
| `Notary.Stored` | src/App.js:109-110 | the stored row keeps the signer, and for an event hash `"0x" + h` it shows `h` |
| `Notary.SearchFilterMatches` | src/App.js:91-101 | an event matches the built filter iff it has the signer field (when non-empty) and the hash `"0x"` + hash field (when non-empty) |
| `Notary.FoundRowShowsSearchedHash` | src/App.js:95-110 | for a 64-digit lower-case digest `h` in the search field, a found row shows exactly `h`, with no prefix characters left. For a lower-case address in the signer field, a found row shows that signer |
| `Notary.UploadedDigestIsFound` | src/App.js:83-110 | for a 64-digit lower-case digest and a lower-case account, the entry recorded for the upload is matched by a search on the digest, on the account, or on both, and is shown as (account, digest) |
| `Notary.App.constructor` | src/App.js:67-72 | all form fields start empty, and so do the result list and the subscriptions |
| `Notary.App.CreateEntry` | src/App.js:80-85 | an empty upload field means no submission and an untouched cache. Otherwise the handle is obtained as `getInstance` does, and on success exactly the `UploadRequest` is submitted; a failed resolution is returned as the failure |
| `Notary.App.FindEntries` | src/App.js:87-106 | the result list is emptied and the form fields are kept. The handle is obtained as `getInstance` does. On success one subscription is opened with `WatchedFilter` of the built filter, or none when both filters throw |
| `Notary.App.OnEntry` | src/App.js:107-113 | each event appends exactly one row, its arguments with the hash's first two characters removed, at the end. Earlier rows are unchanged |

## Left out

- `crypto.subtle.digest` (src/App.js:39) is an external cryptographic primitive. `Sha256Hex` starts from the 32 bytes it resolves with.
- `createStoreInstance` (src/App.js:27-33) is truffle-contract's `deployed()` lookup. Its outcome is the `outcome` parameter of `GetInstance`.
- `instance.create`, `instance.Entry` and `.watch` are contract calls. `CreateEntry` returns the request it would submit. Whether `Entry` throws is the `accepts` parameter. Each delivered event is a call of `OnEntry`.
- The `err` argument of the `watch` callback is ignored by the code. Nothing is modelled for it.
- Promise timing, `setState` batching and interleaved callers are not modelled: each operation runs to completion. In particular, no at-most-one-resolution-in-flight property is claimed, because the code does not provide one.
- Closing or replacing subscriptions is not modelled, because the code never does it. `App.watches` only grows, and `OnEntry` does not know which subscription delivered an event.
- The `alert` (src/App.js:16) and `console.log` (src/App.js:103) are I/O.
- StoreCache.InstanceCache.GetInstance: a missing `web3` is not a separate case. Its throw counts as a started resolution that fails (an `Err` outcome), and with a handle cached the model still returns it, where the code would throw at src/App.js:16 first.
- Matches: stands for the store's comparison of the encoded `bytes32` and `address` topic values. The store right-pads a short `bytes32`, compares hex without regard to case, and reports lower-case `0x` values. `Matches` agrees with that only on canonical lower-case values, so `FoundRowShowsSearchedHash` and `UploadedDigestIsFound` are stated for 64-digit lower-case digests (what `Sha256Hex` produces) and lower-case addresses.
- `src/lib/contract-instance.js` repeats the same memo cell. `StoreCache` covers it. Its module-level `Web3` re-wrapping and `alert` are environment side effects.
- `onDrop` and `FileReader`, `getSetter`, `render`, and the Dropzone and ReactTable UI (src/App.js:117-203) are presentation. The form fields are plain fields of `App` that callers assign.
- JavaScript truthiness of the cached handle: a resolved contract instance is always an object, so "cached" is modelled as `Some`.
