# Streaming digest and HMAC engine of crypto-uni

A Dafny model of `packages/crypto-uni/src/crypto.js`: the algorithm table
(`sha1`, `sha256`, `md5`), the `hmac(fn, key, data)` construction of section 2
of RFC 2104 with a fixed 64-byte block, and the accumulator returned by
`hash(alg, key)` behind `createHash` and `createHmac` (`update` appends a
chunk; `digest` concatenates the chunks, applies the plain digest or HMAC and
clears the chunk list).

Files, one module each:

- `wrappers.dfy` (`Wrappers`): `Option` and `Result`.
- `bytes.dfy` (`Bytes`): bytes as `bv8`, zero buffers, chunk concatenation (`Buffer.concat`).
- `algorithms.dfy` (`Algorithms`): the closed algorithm table, name resolution with the `sha1` default, and the digest functions as a `Registry` parameter.
- `hmac.dfy` (`KeyedDigest`): key normalisation, the pad loop, `hmac`, and an independent RFC 2104 reference construction.
- `hasher.dfy` (`Hasher`): the hasher state, the factories, `update`, `digest`, and the streaming properties.

Modelling decisions:

- The SHA-1, SHA-256 and MD5 implementations (`./sha.js`, `./sha256.js`, `./md5.js`) are not part of this model. They enter as a `Registry`: three arbitrary functions on byte sequences. The only assumption about them is their output length (20, 32 and 16 bytes), which the `Registry` subset type states. Every property holds for any such functions.
- The hasher object is an immutable `State` value. `update` returns the object's next state; "returns `this`" becomes "the returned state is the same object with one more chunk". `digest` returns the raw digest together with the state it leaves behind.
- The key is an `Option<seq<byte>>`, because `digest` tests it for truthiness. An omitted key and the empty string `""` are falsy and are `None`, so `createHmac(alg, "")` gives a plain digest. An empty Buffer is truthy and is `Some([])`, which gives an HMAC under the all-zero key.
- A key longer than 64 bytes is replaced by its digest, and that digest is not padded: the zero padding sits in an `else if`. The pad loop then reads `key[i]` past the end, which is `undefined`, and `undefined ^ 0x36` is `0x36`. The model reads out-of-range key bytes as 0 (`PadByte`) and proves the result equal to the zero-padded RFC 2104 form.
- The object keeps the raw key and normalises it at every `digest`. A hashed key is never padded. The result still equals the RFC 2104 HMAC (`HmacIsRfc2104`).
- The `length` counter is kept as the `appended` field. `digest` does not reset it, so it counts every byte since construction.

## Model

| member | source | states |
|---|---|---|
| Algorithms.Resolve | packages/crypto-uni/src/crypto.js:37-42 | An omitted or empty name resolves to sha1. Any other name succeeds exactly when it is registered, and then resolves to the algorithm registered under that name. An unregistered name fails with `UnsupportedAlgorithm` carrying that name. |
| Algorithms.ResolveName | packages/crypto-uni/src/crypto.js:6-10 | Each algorithm is found again under its own table key. |
| Algorithms.Digest | packages/crypto-uni/src/crypto.js:6-12 | A one-shot digest has its algorithm's length (20, 32 or 16 bytes), never more than the 64-byte block. |
| Algorithms.FnLength | packages/crypto-uni/src/crypto.js:6-10 | Every output of the function registered for an algorithm has that algorithm's digest length. |
| Bytes.Concat | packages/crypto-uni/src/crypto.js:52 | Concatenating the chunk list one chunk at a time yields the chunks' bytes in order; its length is the sum of the chunk lengths. `Hasher.RunDigest` uses it. |
| KeyedDigest.NormalizeKey | packages/crypto-uni/src/crypto.js:20-24 | A key longer than 64 bytes becomes its digest. A key of exactly 64 bytes is kept. A shorter key becomes exactly 64 bytes: the original bytes, unchanged and untruncated, followed by zero bytes. |
| KeyedDigest.ComputePads | packages/crypto-uni/src/crypto.js:26-31 | The pad loop yields two 64-byte pads, equal to the inner and outer pads of the normalised key, with out-of-range key bytes read as 0. |
| KeyedDigest.PadIsZeroPadded | packages/crypto-uni/src/crypto.js:28-31 | For a key of at most 64 bytes, reading missing bytes as 0 gives the same pad as XOR-ing the zero-padded key with the pad constant. |
| KeyedDigest.NormalizedKeyIsRfcKey | packages/crypto-uni/src/crypto.js:20-24 | The normalised key, zero-padded to a block, is the RFC 2104 key: hashed if longer than the block, then zero-padded. |
| KeyedDigest.PadsMatchRfc | packages/crypto-uni/src/crypto.js:26-31 | The pads built by the source equal the RFC 2104 pads `K XOR ipad` and `K XOR opad`, for every key length. |
| KeyedDigest.Hmac | packages/crypto-uni/src/crypto.js:16-35 | `hmac(fn, key, data)` is the RFC 2104 HMAC whenever the key fits in a block or its digest does. |
| KeyedDigest.PadsMatchRfcWhenFit | packages/crypto-uni/src/crypto.js:20-31 | Whenever a hashed key fits in one block, both pads equal the RFC 2104 pads. |
| KeyedDigest.HmacIsRfc2104 | packages/crypto-uni/src/crypto.js:16-35 | `hmac(fn, key, data)` equals `H(K XOR opad, H(K XOR ipad, data))` as defined independently after RFC 2104, whenever a hashed key fits in one block. |
| KeyedDigest.ComputeHmac | packages/crypto-uni/src/crypto.js:16-35 | Running the pad loop and the two nested digests gives the RFC 2104 HMAC. |
| KeyedDigest.HmacLength | packages/crypto-uni/src/crypto.js:33-34 | An HMAC result has the digest length of the underlying algorithm. |
| Hasher.Create | packages/crypto-uni/src/crypto.js:37-43 | Construction succeeds exactly when the name resolves, and an unknown name fails here, before any update. A new object is bound to the resolved algorithm and the given key. It holds an empty message and its counter is 0. |
| Hasher.CreateHash | packages/crypto-uni/src/crypto.js:65-67 | `createHash` succeeds exactly when the name resolves, and yields an unkeyed object bound to the resolved algorithm, with an empty message. |
| Hasher.CreateHmac | packages/crypto-uni/src/crypto.js:69-71 | `createHmac` succeeds exactly when the name resolves, and yields an object bound to the resolved algorithm and the key, with an empty message. |
| Hasher.Update | packages/crypto-uni/src/crypto.js:44-50 | `update` appends exactly one chunk and keeps the earlier chunks, the algorithm and the key. The message grows by exactly the new bytes, and the counter by their number. |
| Hasher.Tag | packages/crypto-uni/src/crypto.js:53 | Without a key the result is the plain digest of the message. With a key it is the RFC 2104 HMAC of the message. Either way it has the algorithm's digest length. |
| Hasher.Finalize | packages/crypto-uni/src/crypto.js:51-56 | `digest` returns the plain digest of the accumulated message without a key, and its RFC 2104 HMAC with one. The result has the algorithm's digest length. The object is left with an empty message and the same algorithm, key and counter. |
| Hasher.RunDigest | packages/crypto-uni/src/crypto.js:51-54 | Running `digest` step by step gives the same result and the same next state as `Finalize`. The steps are the concatenation loop, then the pad loop and the nested digests, or the plain digest. |
| Hasher.UpdateAllAppends | packages/crypto-uni/src/crypto.js:44-50 | A chain of updates appends its chunks in call order. The message becomes the old message followed by their concatenation; nothing else changes. |
| Hasher.OneShot | packages/crypto-uni/src/crypto.js:51-53 | `createHash(A).update(M).digest()` equals the one-shot digest of `M` under `A`. |
| Hasher.ChunkingInvariance | packages/crypto-uni/src/crypto.js:44-53 | From any state, any split of a message into chunks gives the same digest as one update with the whole message. From an empty state, that digest is the plain digest without a key and the RFC 2104 HMAC with one. |
| Hasher.HmacStream | packages/crypto-uni/src/crypto.js:69-71 | A `createHmac` object fed any chunks returns the RFC 2104 HMAC of their concatenation under the key. |
| Hasher.ResetAfterDigest | packages/crypto-uni/src/crypto.js:54 | After `digest`, further updates give exactly what a new object with the same algorithm and key gives. Without a key this is the digest of the new data alone, not of the earlier message followed by it. |
| Hasher.FalsyKeyIsPlainHash | packages/crypto-uni/src/crypto.js:53 | A falsy key, such as the empty string, makes `createHmac` compute the plain digest of the message. |
| Hasher.CounterCoversMessage | packages/crypto-uni/src/crypto.js:47-48 | Through any chain of updates, the `length` counter is at least the number of bytes held. |
| Hasher.CounterTotalsAppended | packages/crypto-uni/src/crypto.js:48 | The `length` counter totals every byte appended since construction, including bytes before a `digest`. |

## Left out

- The SHA-1, SHA-256 and MD5 algorithms (`./sha.js`, `./sha256.js`, `./md5.js`) are not part of this model. They are parameters constrained only by output length, so known-answer vectors (such as the published HMAC-SHA1 vector for "The quick brown fox…") cannot be stated.
- Rendering the digest as a string, `r.toString(enc)` at line 55, is a foreign `Buffer` call. `digest` returns raw bytes only, so the encoding round trip is not modelled.
- `Buffer.from` coercion of non-Buffer keys and data (lines 17-18 and 45) depends on the runtime's string encoding. Keys and chunks are byte sequences from the start.
- The message text built by `error` (lines 60-63) is not modelled. Failure is the `UnsupportedAlgorithm` value of a `Result`.
- The stubs `createCredentials` to `pbkdf2` (lines 73-107) always throw and have no logic.
- JavaScript property lookup on the table (for example the name `"toString"` finding an inherited property) is not modelled. The table is the closed datatype `Alg`, so such names fail like any other unregistered name.
- Falsy algorithm names other than the empty string (`null`, `0`, `false`) are all the omitted name `None`. Non-string truthy names are not modelled.
- The object identity returned by `update` (`return this`) is not modelled. Chaining is modelled by passing each returned state to the next call.
- Concurrent use of one object is not modelled. The source is single-threaded.
- Hasher.Update: chunks and the key are copied when they are passed in. crypto.js pushes the caller's own Buffer (line 47) and keeps the key Buffer by reference (lines 37 and 53), and reads both only when `digest` runs (lines 52-53). It matches the model only while the caller leaves every passed Buffer unchanged until `digest`. A caller that refills one Buffer between `update` calls gets a digest of repeated final contents. OneShot, ChunkingInvariance and HmacStream carry the same proviso.
- KeyedDigest.HmacIsRfc2104: holds only when a hashed key fits in one block. If a digest longer than 64 bytes were registered, the source would silently use only its first 64 bytes.
