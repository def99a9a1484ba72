# kivik session cookies and CouchDB error replies, in Dafny

This project models two small pieces of the kivik server layer.

**The session-cookie codec** is in `serve/cookies.go`.
- A cookie is the unpadded base64url encoding of `name ":" hex(time) ":" signature`. That is the URL-safe alphabet of section 5 of RFC 4648, with padding omitted as section 3.2 allows.
- `DecodeCookie` decodes the base64. It splits the bytes on `':'` into at most three parts. It parses the second part as a base-16 `int64`.
- `ValidateCookie` re-derives the token from the decoded name and time, the user's salt and the server secret. It accepts the cookie only when the re-derived token equals the cookie byte for byte.

**The CouchDB error reply** is in `serve/couchserver/errors.go`.
- `errorDescription` maps four HTTP statuses to CouchDB short codes.
- `HandleError` turns an error into a status plus a JSON body `{error, reason}`.

Modules:
- `GoTypes`: Go `byte` and `int64`, `Option`, and `Completion`. A `Completion` is a call that either returns or panics.
- `Base64Url`: Go's `base64.RawURLEncoding`, decoder and encoder.
- `Bytes`: `bytes.IndexByte` and `bytes.SplitN`.
- `Strconv`: `strconv.ParseInt(s, 16, 64)` and the base-16 formatting it inverts.
- `Serve`: `DecodeCookie`, `CreateAuthToken`, `ValidateCookie`.
- `CouchServer`: `errorDescription`, `couchError`, and the decision part of `HandleError`.

In the cookie codec, Go strings and byte slices are both modelled as `seq<byte>`. The error reply's short codes and reason texts are Dafny `string` values. The panic at `parts[1]` in `DecodeCookie` and the panic on an unknown status in `HandleError` are modelled as explicit results, not hidden by preconditions. `errorDescription` on its own excludes the statuses it panics on by a precondition. A nil `user` pointer in `ValidateCookie` is not modelled (see "## Left out").

Behaviour of the code worth knowing:
- Decoded data with exactly one `':'` decodes when the field after it parses (`DecodeCookieFields` with an empty rest). Data with no `':'` panics (`DecodeCookiePanicsWithoutSeparator`).
- `ParseInt` accepts either letter case (`ParseCaseInsensitive`, `ParseFormat`) and one leading `+` or `-` (`ParseRange` with the value clause of `ParseHexInt64`).

## Model

| member | source | states |
|---|---|---|
| `Base64Url.SextetOf` | serve/cookies.go:35 | Each of the 64 alphabet bytes stands for exactly one 6-bit value, and re-encoding that value gives back the byte. |
| `Base64Url.DecodeSextets` | serve/cookies.go:35 | Every 4 characters' 6-bit values decode to 3 bytes, and a final 2 or 3 to 1 or 2 bytes, so `n` values give `3n/4` bytes. |
| `Base64Url.EncodeSextets` | serve/cookies.go:35 | `n` bytes are cut into `(8n+5)/6` 6-bit values, never a count of 1 mod 4. |
| `Base64Url.DecodeEncodeSextets` | serve/cookies.go:35 | Cutting bytes into 6-bit values and decoding those gives the bytes back. |
| `Base64Url.EncodeDecodeSextets` | serve/cookies.go:35 | Decoding 6-bit values whose dropped low bits are zero and cutting the result again gives the values back. |
| `Base64Url.DecodeString` | serve/cookies.go:35-38 | Decoding succeeds exactly when every byte other than `\r`/`\n` is in the URL-safe alphabet and the remaining length is not 1 mod 4. The output length is 3/4 of that remaining length. |
| `Base64Url.EncodeToString` | serve/cookies.go:35 | The encoder used to form cookies emits only alphabet bytes, never a length of 1 mod 4, and `(8n+5)/6` characters for `n` bytes. |
| `Base64Url.DecodeEncode` | serve/cookies.go:35 | Decoding the encoding of any byte string gives it back. |
| `Base64Url.EncodeDecode` | serve/cookies.go:35 | Re-encoding a decoded string gives back the input when the input is all alphabet and its dropped trailing bits are zero. |
| `Base64Url.NewlinesIgnored` | serve/cookies.go:35 | A `\n` or `\r` inserted anywhere does not change the result. |
| `Base64Url.PaddingRejected` | serve/cookies.go:35-38 | Any `'='` in the input makes decoding fail, because padding is omitted. |
| `Base64Url.NonStrictTrailingBits` | serve/cookies.go:35 | The decoder is not strict: two characters always decode, and changing the four dropped low bits of the second (as from "AA" to "AB") does not change the result. |
| `Base64Url.NonStrictFinalGroup` | serve/cookies.go:35 | At any length of 2 or 3 mod 4, the input decodes, and changing the dropped low bits of its last character does not change the result. |
| `Base64Url.DecodeIgnoresDroppedBits` | serve/cookies.go:35 | Runs of 6-bit values that differ only in the bits a final partial group drops decode to the same bytes. |
| `Base64Url.DecodeQuad` | serve/cookies.go:35 | Four alphabet characters decode to the three bytes their 24 bits form. |
| `Bytes.IndexByte` | serve/cookies.go:39 | Gives -1 exactly when the byte is absent. Otherwise it gives a position holding the byte with no earlier occurrence. |
| `Bytes.SplitN` | serve/cookies.go:39 | Gives between 1 and n parts. The parts joined with the separator give back the input. No part except the last holds the separator, and the last one doesn't either when fewer than n parts come back. |
| `Bytes.SplitAt` | serve/cookies.go:39 | When the input starts with a part free of the separator, that part is split off and the rest is split with a limit one lower. |
| `Bytes.SplitWithoutSeparator` | serve/cookies.go:39 | Input with no separator comes back as one part. |
| `Bytes.SplitThreeFields` | serve/cookies.go:39-40 | With limit 3, the first two parts are the bytes before the first separator and the bytes between it and the second separator (or the end). |
| `Strconv.ParseHexInt64` | serve/cookies.go:40-43 | A success means the field has an optional sign and then at least one hex digit. The value is minus the digits' magnitude when the field starts with `'-'`, and the magnitude otherwise. |
| `Strconv.FormatHex` | serve/cookies.go:40 | The digits produced have exactly the given magnitude, and a non-zero value has no leading zero. |
| `Strconv.FormatHexInt64` | serve/cookies.go:40 | The formatted time is a `'-'` exactly for negative values, followed by hex digits. |
| `Strconv.ParseFormat` | serve/cookies.go:40 | Parsing the base-16 form of any `int64`, in either letter case, gives it back. |
| `Strconv.ParseRejectsEmpty` | serve/cookies.go:40-43 | An empty field, `"+"` and `"-"` are errors. |
| `Strconv.ParseRejectsNonHex` | serve/cookies.go:40-43 | Any non-hex byte after the optional sign is an error. |
| `Strconv.ParseRange` | serve/cookies.go:40-43 | A well-formed field is accepted exactly when its value lies in `int64`: magnitude up to 2^63-1, or up to 2^63 with `'-'`. |
| `Strconv.ParseCaseInsensitive` | serve/cookies.go:40 | Lower-casing the field does not change the result. |
| `Serve.DecodeCookie` | serve/cookies.go:34-45 | Bad base64 gives `("", 0, CorruptBase64)`. The call panics exactly when the decoded data has no `':'`. Every error comes with an empty name and time 0. On success, the name is the bytes before the first `':'`. |
| `Serve.DecodeCookieFields` | serve/cookies.go:39-44 | For data `name ":" field rest`, where rest is empty or starts with `':'`: a bad field gives `("", 0, InvalidTimestamp)`, and a good one gives `(name, t)`. Everything after the second `':'` is ignored. |
| `Serve.DecodeEncodeCookie` | serve/cookies.go:34-45 | Round trip: encoding `name ":" hex(t) ":" sig` with no `':'` in the name, then decoding, gives `(name, t)` with no error. |
| `Serve.CreateAuthToken` | serve/cookies.go:14-17 | Never returns an error. The token is the authdb token for the name, salt, server secret and time. |
| `Serve.ValidateCookie` | serve/cookies.go:20-30 | Panics exactly when decoding panics. The error is exactly the decode error. Never returns `true` with an error. Returns `true` exactly when decoding succeeds and the re-derived token equals the cookie. |
| `Serve.ValidateAcceptsIssuedToken` | serve/cookies.go:20-30 | A token issued in the decodable layout validates for the user it was issued to. |
| `Serve.ValidateRejectsOtherCredentials` | serve/cookies.go:25-29 | That token is refused under any salt or secret that would give a different token. |
| `Serve.DecodeCookiePanicsWithoutSeparator` | serve/cookies.go:39-40 | The cookie "YWJj" (base64url of "abc") makes both `DecodeCookie` and `ValidateCookie` panic. |
| `Serve.DecodeCookieChecked` | serve/cookies.go:34-45 | Decoder with the length check added. It gives the error `MissingSeparator` exactly where `DecodeCookie` panics, and agrees with `DecodeCookie` everywhere else. |
| `Serve.ValidateCookieChecked` | serve/cookies.go:20-30 | Validation over the checked decoder never panics. It agrees with `ValidateCookie` wherever that returns, and gives `(false, MissingSeparator)` where it panics. |
| `CouchServer.ErrorDescription` | serve/couchserver/errors.go:12-24 | 401, 400, 404 and 500 map to "unauthorized", "bad_request", "not_found" and "internal_server_error". Each of these codes names exactly one status, in both directions. |
| `CouchServer.ErrorDescriptionInjective` | serve/couchserver/errors.go:12-24 | Distinct statuses give distinct short codes. |
| `CouchServer.HandleError` | serve/couchserver/errors.go:32-41 | A nil error writes nothing. Otherwise the status is `StatusCode(err)`. For a known status, the body is `{errorDescription(status), Reason(err)}`. For any other status the header is written and then the call panics. |
| `CouchServer.HandleErrorConsistent` | serve/couchserver/errors.go:36-41 | The short code in a written body names the status in the header. |
| `CouchServer.HandleErrorPanicsOnUnmapped` | serve/couchserver/errors.go:36-39 | Errors with status 412 or 501 panic after the header is written. |

## Findings

| source | as written | input that shows it | evidently intended | confidence | as-written member | corrected member |
|---|---|---|---|---|---|---|
| serve/cookies.go:39-40 | `parts[1]` is read with no check that `SplitN` returned two parts | cookie "YWJj", whose decoded data "abc" has no `':'` | return `("", 0, err)` like the other malformed inputs, so validation fails without a panic | medium, not executed | `Serve.DecodeCookiePanicsWithoutSeparator` | `Serve.DecodeCookieChecked` |

`Serve.ValidateCookie` models the source as written. `Serve.ValidateCookieChecked` is the same validation built on the corrected decoder.

## Left out

- `authdb.CreateAuthToken` and its hash are not part of this model. The token is any function `hash(name, salt, secret, time)`, passed as a parameter.
- `getAuthSecret` is not part of this model. The secret is a field of the `Service` value.
- `kivik.StatusCode` and `kivik.Reason` are not part of this model. They are function parameters of `HandleError`.
- `authdb.UserContext`: only its `Salt` field is modelled.
- `Serve.ValidateCookie`: Go passes `user` as a pointer, and a nil user panics at `user.Salt` once decoding succeeds. The model takes the user as a value, so that panic is not modelled.
- `HandleError`: the calls to `w.WriteHeader` and the JSON encoder, and the stderr message when encoding fails, are I/O. Only the status and body it decides on are modelled.
- `CouchServer.ErrorDescription`: the panic on an unknown status is excluded by a precondition. `HandleError` models that panic as `PanicAfterHeader`.
- Error details: error text (`errors.Wrap`'s "invalid timestamp"), `strconv.NumError`'s syntax-versus-range kind, and the offset in base64's `CorruptInputError`. The model keeps only which step failed.
- `driver/driver.go` declares interfaces and structs with no function bodies. `test/memory.go` is a declarative test configuration.
- `context.Context` and reader plumbing carry no behaviour in these files.
