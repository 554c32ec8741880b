# longlinks URL shortener: decision logic of `api/store.js`

This project models the request handler of a Lambda URL shortener in Dafny.
The handler takes a JSON body `{ url, hashLength }` and checks the URL's host
against a domain allow-list. It then derives a short hash: a 64-bit FNV hash of
the URL, a second FNV hash of that value's decimal text, and a base-48 encoding
cut to `hashLength` symbols. Finally it stores a redirect object keyed by the
hash and answers with `shortDomain/hash`.

Modules, one per part of the source:

- `Wrappers` (`wrappers.dfy`) holds `Option` and `Result`.
- `Base48` (`base48.dfy`) holds the 48-symbol alphabet and `base48encode`.
  `Base48Encode` is the division loop as written. Its loop invariants prove it
  equal to `Encode`, a functional statement over the canonical digits
  `Digits(n)`. `Decode` is the inverse the encoding is checked against.
- `HttpErrors` (`http_errors.dfy`) holds `HttpError` and the
  `statusCode || 500` and `message || stack || String(err)` fallbacks of
  `handleError`.
- `DomainValidator` (`domain_validator.dfy`) holds `validate` with its dot-boundary
  suffix matcher and lodash's `_.find`.
- `HashDeriver` (`hash_deriver.dfy`) holds `calculateHash`: the `[7, 12]` length
  gate with default 10, and the hash pipeline.
- `Handler` (`handler.dfy`) holds `handle`, `sendResponse`, `returnShortUrl` and
  `handleError`. The pipeline is a pure function from the configuration, the
  collaborators and the parsed event to the response. The result also records
  the key/value pair handed to the store.

Points where the code is followed as written:

- The encoder prepends each remainder's symbol and stops when the quotient
  reaches 0 or the output is `maxLength` long. It therefore keeps the **least**
  significant `maxLength` base-48 digits, as the comment at `api/store.js:73`
  says. It does not keep the most significant ones. A value with fewer digits
  gives a shorter hash, with no padding. Because `48^11 < 2^64 < 48^12`, only
  lengths up to 11 can cut a 64-bit digest.
- When the store rejects, the response uses the store error's own
  `statusCode` (500 only when it has none) and its own message. It is not a
  fixed 500 with a generic message.
- `_.find` returns the matching entry itself, and `!` then tests it. An empty
  string entry is falsy, so when it is the first match the host is rejected.
  The model keeps this. The exact accept-iff-covered statement assumes no
  entry is empty.
- The validator runs before the length gate, so a disallowed URL with a bad
  `hashLength` gets the domain message.

## Model

| member | source | states |
|---|---|---|
| Base48.AlphabetIsSourceConstant | api/store.js:16 | the alphabet is the source constant and has 48 symbols, the radix of the encoding |
| Base48.AlphabetDistinct | api/store.js:14-16 | no symbol occurs twice, so each symbol names exactly one digit |
| Base48.AlphabetAvoidsExcluded | api/store.js:14-16 | no symbol is a vowel of either case or one of `l 0 1 3` |
| Base48.Base48Encode | api/store.js:53-68 | the do-while division loop (at least one step, prepend the remainder's symbol, stop at quotient 0 or `maxLength` symbols) computes exactly the last `Min(digits, Max(1, maxLength))` canonical base-48 digits of the input |
| Base48.Encode | api/store.js:58-65 | the output has between 1 and `Max(1, maxLength)` symbols |
| Base48.EncodeUsesAlphabet | api/store.js:62 | every output symbol is drawn from the alphabet |
| Base48.EncodeDecode | api/store.js:70-73 | decoding the output gives the input modulo `48^maxLength`, so the least significant digits are kept |
| Base48.EncodeRoundTrip | api/store.js:58-67 | decoding the output gives the input back if and only if the input is below `48^maxLength` |
| Base48.EncodeUntruncated | api/store.js:58-67 | below `48^maxLength` the output is the full canonical representation, not padded |
| Base48.EncodeFullWidth | api/store.js:65 | the output reaches `maxLength` symbols if and only if the input has at least that many base-48 digits |
| Base48.EncodeZero | api/store.js:58-65 | input 0 gives the single symbol `"2"` for any `maxLength` |
| Base48.EncodeInjective | api/store.js:58-67 | two inputs below `48^maxLength` never share an output |
| Base48.DecodeEncode | api/store.js:53-68 | every canonical string no longer than `maxLength` (alphabet symbols, no leading zero symbol) is the output for the number it denotes |
| HttpErrors.HttpError | api/store.js:27-32 | the error carries the given status code and message |
| HttpErrors.StatusOf | api/store.js:129 | the status is the error's own code unless it is missing or 0, in which case it is 500; it is never 0 |
| HttpErrors.MessageOf | api/store.js:130 | the message is the error's message if non-empty, otherwise its stack, otherwise its string rendering |
| DomainValidator.MatchesOnDotBoundary | api/store.js:42 | an entry matches a host if and only if it is the whole host or exactly what follows some dot in the host |
| DomainValidator.Find | api/store.js:43 | `_.find` returns the first entry that matches, and nothing exactly when no entry matches |
| DomainValidator.Validate | api/store.js:34-50 | an accepted URL is returned unchanged and has an allow-listed host; a parse failure is 400 "Not a valid URL"; any other rejection is 400 with a message naming the host and the allow-list |
| DomainValidator.ValidateAcceptsCoveredHosts | api/store.js:42-43 | with no empty entry, a host is accepted if and only if some entry is the host or follows a dot in it |
| DomainValidator.EmptyEntryRejects | api/store.js:43 | an empty first entry that matches makes `_.find` report a falsy entry, so the host is rejected |
| DomainValidator.ValidateAcceptsExamples | api/store.js:42-49 | with `domain1.com` allow-listed, `domain1.com` and `sub.domain1.com` are accepted |
| DomainValidator.ValidateRejectsExamples | api/store.js:42-48 | with `domain1.com` allow-listed, `evildomain1.com`, `evil.com` and a missing host are rejected; an empty allow-list rejects every host |
| HashDeriver.HashLength | api/store.js:74-79 | an absent length means 10; a number is accepted if and only if it lies in `[7, 12]`; a non-numeric value or anything else is 400 with the range message |
| HashDeriver.CalculateHash | api/store.js:74-88 | the gate decides success before any hashing; success passes the URL on unchanged with a hash of 1 to `hashLength` symbols |
| HashDeriver.HashDecodesToDigest | api/store.js:82-86 | the hash uses only alphabet symbols and decodes to the double FNV digest modulo `48^hashLength` |
| HashDeriver.HashFullLength | api/store.js:86 | the hash is exactly `hashLength` long if and only if the double digest has at least that many base-48 digits |
| HashDeriver.LengthTwelveIsLossless | api/store.js:82-86 | with 64-bit digests and length 12, the hash is the full base-48 representation of the double digest and decodes back to it |
| Handler.SendResponse | api/store.js:102-115 | every response has the CORS header and the given status and message; the `url` field is present if and only if a non-empty path is, and is then `shortDomain/path` |
| Handler.ReturnShortUrl | api/store.js:117-125 | success is status 200, message `OK`, the hash as path and `shortDomain/hash` as URL |
| Handler.HandleError | api/store.js:127-134 | an error gives its status (500 without one) and message, with no path and no URL |
| Handler.Handle | api/store.js:136-154 | every response carries the CORS header; a short URL is returned if and only if the store accepted the pair; what is stored is always the request's own URL |
| Handler.UnparseableIsBadRequest | api/store.js:138-143 | an unparseable body gives 400 with its message and reaches neither validation nor the store |
| Handler.MissingUrlIsBadRequest | api/store.js:144-148 | a missing or empty `url` gives 400 with its message and reaches neither validation nor the store |
| Handler.RejectedUrlIsBadRequest | api/store.js:149-153 | a URL the validator refuses gives 400 with the validator's message, whatever `hashLength` says, and nothing is stored |
| Handler.BadLengthIsBadRequest | api/store.js:74-80 | an allowed URL with a `hashLength` outside `[7, 12]` gives 400 with the range message and nothing is stored |
| Handler.StoreFailureIsReported | api/store.js:151-153 | a store rejection gives the store error's status (500 without one) and message, with no short URL |
| Handler.SuccessReturnsShortUrl | api/store.js:149-152 | on the success path the pair (hash, URL) goes to the store and the response is 200 with the hash and `shortDomain/hash` |
| Handler.ClientErrorsAre400 | api/store.js:136-153 | every request that does not reach the store is answered 400 without a short URL |

## Left out

- The S3 `putObject` call is network I/O. It is the `put` collaborator, which either succeeds or returns an error.
- The 64-bit FNV hash (`fnv-plus`) and `BigInteger` decimal rendering (`jsbn`) are library code. They are the `fnv64` and `decimal` collaborators. `Fits64` states the 64-bit range where it is needed. Unbounded `nat` stands in for `BigInteger`.
- Node's `url.parse` is the `parseHost` collaborator. It returns a thrown error or an optional host, and that host includes any port.
- `JSON.parse`, the Lambda callback, `debugLog`/`console.log` and loading `config.json` are transport, logging and configuration. The event is passed in already parsed. The allow-list and short domain are an immutable `Config`. The body is the `Body` record, not its `JSON.stringify` text.
- The promise chain is modelled as straight-line code that stops at the first error.
- HashDeriver.HashLength: JavaScript coercion is not modelled. A numeric string such as `"8"` or a fraction such as `7.5` passes the source's gate. In the model the field is absent, an integer, or a value whose `Number(...)` is `NaN`.
- A body that parses to `null` makes the destructuring at `api/store.js:144` throw synchronously, outside the promise chain. This is not modelled.
- A truthy `url` that is not a string reaches `url.parse`. It is covered only through whatever `parseHost` returns.
- The `err = {}` default of `handleError` applies only to a rejection without a value. Nothing in this handler rejects that way, so it is not modelled.
- HttpErrors.HttpError: only the first line of the stack trace is modelled. The stack is read only when the message is empty, and no `HttpError` here has an empty message.
- Determinism of the hash (same URL and length, same hash) is not a separate lemma. It holds because every member is a function.
