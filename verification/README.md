# Relay registry admission and symmetric-ciphertext framing

A Dafny model of two pieces of sequential logic in an onion-routing workshop
written in TypeScript:

- **The relay registry** (`src/registry/registry.ts`). Relays announce
  themselves with `/registerNode`, sending a `nodeId` and a base64 RSA public
  key. The handler applies four checks in a fixed order: the field types
  (400), the key format `^[A-Za-z0-9+/]{392}$` (400), a duplicate id (409) and a
  duplicate key (409). Only then does it append the record to the ordered
  list that `/getNodeRegistry` returns. Module `Registry` models the list as an
  immutable `seq<Node>` and the handler as a pure `Register` returning the
  reply and the new list. It proves that rejection changes nothing and that
  the first failing check decides the error. It also proves that any series
  of registrations keeps ids distinct, keys distinct and every key
  well-formed.
- **The crypto helpers** (`src/crypto.ts`). Module `Crypto` models the
  repository's own composition of the webcrypto and codec primitives.
  `symEncrypt` prefixes the AES-CBC output with its 16-byte IV and encodes the
  whole as base64. `symDecrypt` decodes the text, takes bytes [0,16) as IV and
  the rest as data. The IV framing is concrete on `seq<bv8>`, with JavaScript's
  clamping `slice`. The primitives are function-valued fields of a
  `Primitives` record. The laws they are trusted to obey are hypotheses of
  the round-trip lemmas: codec round-trips, decryption undoing encryption, and
  exported keys importing back. The byte-order-mark handling of the default
  `TextDecoder` is modelled concretely, because it changes what the round
  trips return (see Findings).
- Module `Base64` is a concrete encoder for section 4 of RFC 4648. It shows
  why the registry's constant is 392: a 294-byte SPKI export of a 2048-bit RSA
  key encodes to exactly 392 characters of the alphabet, with no `=` padding.

The IV of `symEncrypt` and the generated keys are parameters. The random
padding seed that RSA-OAEP draws on every encryption is hidden inside the
`rsa.encrypt` field, which fixes one outcome per input (see "## Left out").

## Model

| member | source | states |
|---|---|---|
| Registry.MatchesKeyPattern | src/registry/registry.ts:48-51 | the key test accepts exactly the 392-character strings over `A-Z a-z 0-9 + /`; an accepted key never contains `=` padding |
| Registry.MessageIdentifiesReason | src/registry/registry.ts:45-60 | each refusal reason has its own error text (`Invalid node data`, `Invalid public key format`, `Node ID already registered`, `Public key already in use`), so two replies have the same text exactly when they have the same reason |
| Registry.AnyNode | src/registry/registry.ts:54-59 | `some` over the list is true exactly when some stored record satisfies the predicate |
| Registry.Register | src/registry/registry.ts:40-68 | the handler, written with `some` over the list as the source does, gives exactly the reply of the reference `ExpectedReply`, which is stated in terms of the list of failed checks alone |
| Registry.RegisterOutcomes | src/registry/registry.ts:40-68 | a request is admitted iff it fails none of the four checks; otherwise the list is unchanged and the error is the first failing check in the order type, format, duplicate id, duplicate key; 400 for the first two errors, 409 for the other two; on admission exactly `{nodeId, pubKey}` is appended at the end, with earlier entries unchanged |
| Registry.RegisterPreservesWf | src/registry/registry.ts:49-65 | one request keeps the invariant: ids pairwise distinct, keys pairwise distinct, every stored key well-formed |
| Registry.GetNodeRegistry | src/registry/registry.ts:33-36 | the listing holds the stored records themselves, with the same length and the same record at each position |
| Registry.RegisterAll | src/registry/registry.ts:40-68 | a series of requests handled one after another gets exactly one outcome per request |
| Registry.RegisterAllExtends | src/registry/registry.ts:63-67 | the stored list before a series of requests is a prefix of the list after it: no record is ever removed or changed |
| Registry.RegisterAllPreservesWf | src/registry/registry.ts:49-65 | after any sequence of registrations, ids are pairwise distinct, keys are pairwise distinct and every stored key is well-formed |
| Registry.RegisterAllAppendsCreated | src/registry/registry.ts:63-67 | a series of registrations only appends, and it appends exactly the admitted records, in the order they were admitted |
| Registry.ListingIsAdmittedRecords | src/registry/registry.ts:33-35 | starting empty, the registry listing is exactly the admitted records; its length is the count of `Created` outcomes, and it satisfies the invariant |
| Base64.Encode | src/crypto.ts:8-10 | base64 text is four characters per started group of three bytes; it uses only the alphabet and `=`; there is no padding when the length is a multiple of three, and padding otherwise |
| Base64.EncodedSpkiPassesKeyFormat | src/registry/registry.ts:48-49 | the base64 text of any 294-byte buffer matches the registry's key pattern |
| Crypto.ExportedPubKeyPassesKeyFormat | src/crypto.ts:36-40 | with the standard base64 encoder, an exported public key whose SPKI buffer is 294 bytes (RSA-2048) is accepted by the registry's format check |
| Crypto.ExportPubKey | src/crypto.ts:37-40 | the text form of a public key decodes back to exactly its SPKI bytes |
| Crypto.ExportPrvKey | src/crypto.ts:43-46 | the text form of a private key decodes back to exactly its PKCS#8 bytes |
| Crypto.ImportPubKey | src/crypto.ts:49-61 | importing the text of an exported public key gives back that key, given the base64 and SPKI round-trip laws |
| Crypto.ImportPrvKey | src/crypto.ts:64-76 | importing the text of an exported private key gives back that key, given the base64 and PKCS#8 round-trip laws |
| Crypto.RsaEncrypt | src/crypto.ts:79-89 | a public key text that does not import gives a rejection; on success the decoded output is the RSA-OAEP ciphertext of the UTF-8 bytes of the text under the imported key |
| Crypto.RsaDecrypt | src/crypto.ts:92-100 | the call rejects exactly when RSA-OAEP decryption of the decoded text rejects; turning the bytes into text never fails |
| Crypto.RsaRoundTrip | src/crypto.ts:78-100 | with the program's default decoder, text encrypted under the exported public key of a pair decrypts with the private key to the same text minus a leading U+FEFF; a text that does not start with U+FEFF comes back unchanged |
| Crypto.RsaDecryptDropsLeadingBom | src/crypto.ts:99 | a text `U+FEFF` followed by `t` comes back from the RSA round trip as `t`, not as the text that was encrypted |
| Crypto.RsaRoundTripIgnoringBom | src/crypto.ts:92-100 | with a decoder that keeps the byte order mark, every well-formed Unicode text encrypted under the exported public key decrypts back to itself |
| Crypto.Combine | src/crypto.ts:146-149 | the combined buffer's length is the IV length plus the ciphertext length; the IV comes first, then the ciphertext, both unaltered |
| Crypto.CombineBuffers | src/crypto.ts:147-149 | allocating the buffer and copying the IV at 0 and the ciphertext at the IV's length builds exactly the combined layout |
| Crypto.Split | src/crypto.ts:161-163 | the IV part and the data part concatenate back to the input for any length; a buffer of 16 bytes or more yields a 16-byte IV; a shorter one yields the whole buffer as IV and empty data |
| Crypto.SplitCombine | src/crypto.ts:146-163 | splitting at 16 the combined buffer of a 16-byte IV and a ciphertext returns exactly that IV and ciphertext |
| Crypto.SymEncrypt | src/crypto.ts:134-152 | when base64 decoding undoes encoding, decoding the output and splitting it yields the 16-byte IV and the AES-CBC output of the UTF-8 text under that IV |
| Crypto.ExportSymKey | src/crypto.ts:117-120 | the text form of a symmetric key decodes back to exactly its raw bytes |
| Crypto.ImportSymKey | src/crypto.ts:123-132 | importing the text of an exported symmetric key gives back that key, given the base64 and raw-key round-trip laws |
| Crypto.SymDecrypt | src/crypto.ts:155-172 | a key text that does not import gives a rejection; otherwise the call rejects exactly when AES-CBC decryption rejects for the IV and data that the split at 16 yields from the decoded buffer; a decoded buffer shorter than 16 bytes is passed whole as the IV, with empty data |
| Crypto.SymRoundTrip | src/crypto.ts:116-172 | with the program's default decoder, `symDecrypt` with the exported key recovers the text `symEncrypt` encrypted, minus a leading U+FEFF; a text that does not start with U+FEFF comes back unchanged |
| Crypto.SymDecryptDropsLeadingBom | src/crypto.ts:171 | a text `U+FEFF` followed by `t` comes back from the symmetric round trip as `t`, not as the text that was encrypted |
| Crypto.SymRoundTripIgnoringBom | src/crypto.ts:155-172 | with a decoder that keeps the byte order mark, `symDecrypt` recovers every well-formed Unicode text `symEncrypt` encrypted |
| Crypto.DistinctIvsGiveDistinctCiphertexts | src/crypto.ts:138-151 | two encryptions under different IVs give different ciphertext texts, whatever the keys and plaintexts |

## Left out

- HTTP plumbing: Express and body-parser setup, `listen`, the `/status` routes and the `/getPrivateKey` echo route carry no protocol logic. The handler's JSON body is reduced to two fields that are a number, a string, something else or missing.
- `src/onionRouters/simpleOnionRouter.ts` and `src/users/user.ts` hold only status and getter routes over module variables and stub routes that return `null` or a bare 200. They have no peel, forward or message logic to model.
- Circuit building, layered envelopes, path selection and relay peel-and-forward do not exist in the source, so they are not modelled.
- RSA-OAEP and AES-CBC themselves, key generation (`generateRsaKeyPair`, `createRandomSymmetricKey`), SPKI/PKCS#8/raw export and import, base64 decoding and UTF-8 conversion are foreign library code. They appear only as uninterpreted fields of `Primitives`. The laws each lemma relies on are its hypotheses. A key that imports back is taken to be the same key, although webcrypto only promises an equivalent key with the usages given at import: `encrypt` for `importPubKey`, `decrypt` for `importPrvKey`, and `encrypt` and `decrypt` for `importSymKey`. The raw import inside `symDecrypt` asks for `decrypt` alone. `ImportSymKey` stands for both raw imports, because they differ only in usages.
- Crypto.SymEncrypt: the random IV from `getRandomValues` is a parameter required to be 16 bytes long. "A fresh IV each call" cannot be stated without randomness; `DistinctIvsGiveDistinctCiphertexts` states what follows when the IVs differ.
- Crypto.RsaEncrypt: RSA-OAEP is randomized: webcrypto draws a fresh seed on each `encrypt` call, so two calls with the same text and key give different ciphertexts. The field `rsa.encrypt` is a function and fixes one outcome per input, so the model does not show that repeated calls differ. `RsaRoundTrip` and `RsaRoundTripIgnoringBom` quantify over every `Primitives` record, so they hold for each possible outcome.
- Crypto.SymEncrypt: a rejection by webcrypto's AES-CBC encryption is not modelled; with a 16-byte IV it is total here.
- Registry.Register: `nodeId` is a mathematical integer. JSON numbers with a fraction and other JavaScript number quirks are not modelled.
- Crypto.SymRoundTrip, Crypto.SymRoundTripIgnoringBom, Crypto.RsaRoundTrip, Crypto.RsaRoundTripIgnoringBom: texts are Dafny strings of Unicode scalar values. A JavaScript string with an unpaired surrogate is not covered. `TextEncoder` replaces such a surrogate by U+FFFD, so that text does not come back unchanged even with `ignoreBOM: true`.
- Registry.Register: keys are Dafny strings of Unicode scalar values, not UTF-16 code units. This makes no difference to the format check, which admits ASCII characters only.
- Concurrency around the module-level `NodesRegistered` array is not modelled. Registrations are a sequential series of calls.

## Findings

| source | as written | input that shows it | evidently intended | confidence | as-written member | corrected member |
|---|---|---|---|---|---|---|
| src/crypto.ts:171 | `symDecrypt` decodes with `new TextDecoder()`, whose default `ignoreBOM: false` consumes a leading U+FEFF | `symEncrypt(k, "\u{FEFF}x")` decrypted with the exported key gives `"x"` | decryption returns exactly the encrypted text, for every well-formed Unicode text | medium, not executed | Crypto.SymDecryptDropsLeadingBom | Crypto.SymRoundTripIgnoringBom |
| src/crypto.ts:99 | `rsaDecrypt` decodes with `new TextDecoder()`, whose default `ignoreBOM: false` consumes a leading U+FEFF | `rsaEncrypt("\u{FEFF}x", pub)` decrypted with the matching private key gives `"x"` | decryption returns exactly the encrypted text, for every well-formed Unicode text | medium, not executed | Crypto.RsaDecryptDropsLeadingBom | Crypto.RsaRoundTripIgnoringBom |

The corrected behaviour is `SymDecrypt` and `RsaDecrypt` with `ignoreBom` set to `true`. That stands for `new TextDecoder("utf-8", { ignoreBOM: true })`.
