# Chirpy handler rules in Dafny

A model of the decision and transformation rules inside the HTTP handlers of
the Chirpy web server (`main.go`): the profanity filter applied to a new
chirp, the 140-byte body limit, the chirp listing (author filter and ordering
by id), the 60-day refresh-token expiry used by refresh and revoke, the
ownership check on chirp deletion, and the way a user id is written into and
read back from an access token's subject.

Go strings are byte sequences (`GoTypes.Bytes`), so `len(body)` is the
number of bytes. The store behind `database.NewDB` is not part of this model:
the chirps and refresh tokens it would return are parameters (a sequence of
chirps for the listing, maps for deletion and tokens), and so is the current
time.

Modules:

- `GoTypes`, `GoStrings`, `GoStrconv`: the parts of Go the rules rely on:
  bytes, 64-bit bounds, `strings.ToLower`/`Split`/`Join` and
  `strconv.Atoi`/`Itoa`; `SplitJoinLaws` proves that `Split` and `Join`
  undo each other.
- `Censor`: `contains` and `censor_words`, as loops proved against the
  function `Censored`, with the word-by-word properties of `Censored`.
- `Chirps`: the chirp record and the body check of `handlePOSTChirp`.
- `ChirpListing`: `handleGETChirps`, with the filter loop and an in-place
  sort of an array of chirps.
- `ChirpDelete`: `handleDELETEChirpByID`.
- `RefreshTokens`: `handlePOSTRefresh` and `handlePOSTRevoke`.
- `Subject`: the subject claim, as written and corrected (see Findings).

Where the code's behaviour may surprise, the model follows the code:

- Deleting a chirp that does not exist ends the handler without a status,
  so Go answers 200 with an empty body, not a not-found error
  (`ChirpDelete.Outcome.Missing`).
- Censoring splits on single spaces and keeps empty words, so runs of spaces
  come back unchanged rather than collapsed (`SplitJoinLaws.JoinSplit`).
- A malformed `author_id` and a malformed chirp id end the process
  (`log.Fatal`); the model shows them as a `Fatal` outcome. An empty token
  subject makes the deletion handler panic, which drops only that request
  (`ChirpDelete.Outcome.Panicked`).

## Model

| member | source | states |
|---|---|---|
| `GoStrings.Lower` | main.go:144 | `strings.ToLower` keeps the length, lowers each ASCII upper-case letter and keeps every other byte |
| `GoStrings.Split` | main.go:142 | `strings.Split(s, " ")` yields at least one piece, and no piece holds a space |
| `GoStrings.Join` | main.go:150 | `strings.Join(ws, " ")` of no pieces is empty, of one piece is that piece, and otherwise starts with the first piece; `JoinSplit` and `SplitJoin` pin the rest |
| `SplitJoinLaws.SplitCount` | main.go:142 | the split yields exactly one more piece than the string has spaces |
| `SplitJoinLaws.JoinSplit` | main.go:142-150 | joining the split pieces with single spaces gives the original string back, empty pieces included |
| `SplitJoinLaws.SplitJoin` | main.go:142-150 | splitting a join of space-free pieces gives the same pieces back |
| `SplitJoinLaws.JoinNoLonger` | main.go:150 | joining pieces that are each no longer than their counterparts gives a string no longer than the join of the counterparts |
| `GoStrconv.Atoi` | main.go:225 | a successful parse yields a 64-bit value, and only from text that is one or more digits after at most one `+` or `-` |
| `GoStrconv.AtoiUnsigned` | main.go:225 | digits without a sign parse to their decimal value when it fits in 64 bits, and fail otherwise |
| `GoStrconv.AtoiNegative` | main.go:225 | `-` and digits parse to the negated decimal value when it fits in 64 bits, and fail otherwise |
| `GoStrconv.AtoiPositive` | main.go:225 | `+` and digits parse to the decimal value when it fits in 64 bits, and fail otherwise |
| `GoStrconv.AtoiItoa` | main.go:225 | every 64-bit integer written in decimal parses back to itself |
| `Censor.Contains` | main.go:130-137 | the scan reports true exactly when the item is an element of the slice |
| `Censor.CensorWords` | main.go:139-152 | the loop builds exactly `Censored(source, wordsToReplace)`: split, mask each blocked word, join |
| `Censor.CensoredWords` | main.go:142-150 | the output has as many space-separated words as the input; word i is `****` exactly when the lower-cased input word i is on the list, and otherwise the input word with its case unchanged |
| `Censor.CensorKeepsCleanBody` | main.go:142-150 | a body with no blocked word is returned byte for byte |
| `Censor.CensorIdempotent` | main.go:139-152 | censoring an already censored body changes nothing, for every block-list |
| `Censor.CensorNeverLengthens` | main.go:139-152 | when every blocked word is at least 4 bytes long, the output is no longer than the input |
| `Chirps.CheckBody` | main.go:168-177 | the body is refused exactly when its raw byte length exceeds 140 (so 140 bytes pass), and an accepted body is censored with the handler's block-list |
| `Chirps.AcceptedBodyWithinLimit` | main.go:168-177 | an accepted body is still at most 140 bytes after censoring with `kerfuffle`, `sharbert`, `fornax` |
| `Chirps.CleanBodyStoredVerbatim` | main.go:168-177 | a body within the limit and without a blocked word is accepted unchanged |
| `ChirpListing.OrderOf` | main.go:213-217 | descending order is chosen exactly when the `sort` parameter is `desc`; anything else is ascending |
| `ChirpListing.FilterOf` | main.go:223-229 | an empty `author_id` means no filter, an unparsable one ends the process, otherwise the filter is the parsed id |
| `ChirpListing.ByAuthor` | main.go:230-234 | a chirp is kept exactly when it is in the input and its author id equals the requested one |
| `ChirpListing.ByAuthorCounts` | main.go:230-235 | as multisets, the filtered chirps are the input chirps of the requested author, every copy kept |
| `ChirpListing.FilterByAuthor` | main.go:224-235 | the append loop computes exactly `ByAuthor(chirps, author)` |
| `ChirpListing.SortChirps` | main.go:238-247 | after the in-place sort the ids are non-decreasing (ascending) or non-increasing (descending) and the array holds the same chirps |
| `ChirpListing.ListChirps` | main.go:212-247 | the handler ends fatally exactly on a malformed `author_id`; otherwise the listing is a permutation of the selected chirps, sorted by id in the requested direction |
| `ChirpListing.ListedByAuthor` | main.go:223-236 | with an author filter, a chirp is listed exactly when it is stored and written by that author |
| `ChirpDelete.StatusCode` | main.go:524-551 | 204 exactly for a deletion, 403 exactly for a non-owner or a failed authentication, and 200 exactly for a missing chirp, where the handler writes no status |
| `ChirpDelete.DeleteChirp` | main.go:540-551 | the chirp is removed exactly when it exists and its author is the requester; otherwise the store is unchanged, and a missing chirp and a foreign chirp are told apart |
| `ChirpDelete.DeleteOnlyByAuthor` | main.go:545-549 | no request removes or alters a chirp other than one its own author asked to delete |
| `ChirpDelete.HandleDeleteAsWritten` | main.go:524-551 | as written, with the requester read as the first byte of the subject: an empty subject panics, a malformed chirp id ends the process, and otherwise the ownership rule decides with that byte as the requester, so a non-owner gets 403, a missing chirp 200, and the author's request deletes exactly that chirp |
| `ChirpDelete.AsWrittenSmallAuthorCanDelete` | main.go:524-551 | as written, an author whose id is below 128 deletes their chirp with the token issued for them |
| `ChirpDelete.AsWrittenUser128ActsAs194` | main.go:524-551 | as written, user 128's token deletes a chirp of user 194 and is refused (403) on user 128's own chirp |
| `ChirpDelete.HandleDelete` | main.go:524-551 | with the corrected (decimal) subject decoder: an unreadable subject is refused (403) with the store unchanged, a malformed chirp id ends the process, and otherwise the ownership rule decides with the decoded id, so every subject that decodes to the author deletes exactly that chirp |
| `ChirpDelete.AuthorCanDelete` | main.go:530-551 | with the corrected (decimal) subject decoder, an author presenting a token issued for them deletes their chirp |
| `RefreshTokens.Sub` | main.go:472-473 | `now.Sub(createdAt)` is the exact difference when it fits in 64 bits and saturates otherwise |
| `RefreshTokens.Expired` | main.go:473 | a token is expired exactly when more than 60 days (in nanoseconds) have passed since its creation; saturation never changes the verdict |
| `RefreshTokens.Refresh` | main.go:463-489 | a new access token is issued exactly for a stored, unexpired token whose user exists, and for that user; otherwise 401, or 400 when only the user is missing |
| `RefreshTokens.Revoke` | main.go:499-514 | the token is deleted (204) exactly when it is stored and unexpired; otherwise 401 and the store is unchanged |
| `RefreshTokens.ExpiryBoundary` | main.go:473 | a token exactly 60 days old is accepted, one a second older is refused |
| `RefreshTokens.ExpiredStaysExpired` | main.go:473 | expiry is permanent as time moves forward |
| `RefreshTokens.RevokeKeepsOthers` | main.go:513 | a revoke leaves every other stored token as it was |
| `RefreshTokens.ExpiredTokenNotRevoked` | main.go:509-511 | revoking an expired token answers 401 and leaves it stored |
| `RefreshTokens.RevokedTokenIsDead` | main.go:465-513 | after a successful revoke the token is refused (401) by both refresh and revoke at any later time |
| `Subject.EncodeRune` | main.go:92 | `string(id)` is one byte for ids below 128 and U+FFFD for values that are not Unicode scalar values |
| `Subject.EncodeRuneDecodes` | main.go:92 | `string(id)` of a scalar value has the UTF-8 byte shape (lead byte `C2`-`DF`, `E0`-`EF` or `F0`-`F4`, then continuation bytes `80`-`BF`), decoding its payload bits gives the id back, and it takes one, two, three or four bytes by the UTF-8 ranges |
| `Subject.DecodeSubjectAsWritten` | main.go:118-125 | the id read back is the value of the first byte of the subject, and an empty subject has none |
| `Subject.AsWrittenRoundTrip` | main.go:92-125 | the source's encode/decode pair returns the id exactly for ids 0 to 127 and for 195 |
| `Subject.AsWrittenLosesId128` | main.go:92-125 | user 128 gets subject `C2 80` and is read back as user 194 |
| `Subject.SubjectRoundTrip` | main.go:118-126 | with decimal encoding, every 64-bit user id is read back unchanged |

## Findings

| source | as written | input that shows it | evidently intended | confidence | as-written member | corrected member |
|---|---|---|---|---|---|---|
| main.go:92-125 | the id goes into the subject as `string(u.Id)` (the UTF-8 encoding of that code point) and is read back as the first byte, also at main.go:197 and main.go:428 | user id 128: subject `C2 80`, read back as 194, so user 128 acts as user 194 | the subject carries the id in decimal and is parsed back as a decimal integer | not executed; high | `Subject.AsWrittenLosesId128` | `Subject.SubjectRoundTrip` |

The deletion handler is modelled both ways: `ChirpDelete.HandleDeleteAsWritten`
reads the requester as the source does, and `ChirpDelete.AsWrittenUser128ActsAs194`
shows user 128 deleting user 194's chirp; `ChirpDelete.HandleDelete` and
`ChirpDelete.AuthorCanDelete` use the corrected decoder.

## Left out

- `GoStrings.Lower`: `strings.ToLower` is modelled on ASCII only. Go's ASCII path is the same; for non-ASCII text Go lowers Unicode runes, and two runes lower into ASCII letters: U+212A KELVIN SIGN (to `k`) and U+0130 LATIN CAPITAL LETTER I WITH DOT ABOVE (to `i`). A word spelled with one of them can be censored by the server and not by `Censor.Censored` when a listed word holds `k` or `i`; for the handler's list at main.go:176 only the Kelvin sign matters, since none of its words holds an `i`.
- `ChirpDelete.HandleDelete` and `ChirpDelete.AuthorCanDelete` use the corrected subject decoder, not the first-byte read at main.go:125; the source's own behaviour is `ChirpDelete.HandleDeleteAsWritten`.
- The store (`database.NewDB`, `CreateChirp`, `GetChirps`, `GetChirpByID`, `DeleteChirpByID`, `GetRefreshToken`, `DeleteRefreshToken`, the user operations): `internal/database/database.go` holds only type declarations. Chirps, tokens and known user ids are parameters; id assignment, persistence and the file lock are not modelled.
- Concurrency: the read/write lock of the store and the unsynchronised `fileServerHits++`.
- JWT signing and parsing, bcrypt, `crypto/rand` token generation and environment variables: foreign libraries; the deletion handlers take the token's subject bytes as a parameter, and a failed authentication is the `Unauthenticated` outcome.
- The `Bearer ` prefix stripping of the Authorization header, JSON decoding and encoding, response writing, the file server and the metrics pages: HTTP plumbing.
- `handlePOSTChirp` after the body check (authentication, the author id and storing the chirp), `handlePOSTUser`, `handleLogin`, `handlePUTUser`, `handleGETChirpByID` (404 for an unknown id, `log.Fatal` on a malformed one) and `handlePolkaWebhook` (401, 204 or 404 from the API key, the event name and the user lookup): their decisions are outside the rules modelled here.
- Go's monotonic clock reading: times are plain nanosecond instants on one wall clock.
- `log.Fatal` and `debug.PrintStack`: process termination is the `Fatal` outcome, with nothing after it. Storage failures that end the process are not modelled, since the store is not.
