# memos-cloudflare: a Dafny model of its core

memos-cloudflare runs the Memos note-taking service on Cloudflare Workers. The
backend is a set of Hono handlers over a D1 (SQLite) database; the frontend
is a React application that talks to it through a REST client and a gRPC-web
compatible adapter. This project models the deterministic cores inside that
glue and proves what they promise:

- **The signed bearer token.** This is an HS256 token in the compact shape of
  RFC 7519, with the MAC of section 3.2 of RFC 7518.
  - It is built over the *standard* base64 alphabet of section 4 of RFC 4648 with every `=` removed. That is not the base64url encoding of section 5 of RFC 4648, which section 2 of RFC 7515 asks for.
  - Base64 encoding (`btoa`) and decoding (`atob`, the forgiving decoder of the WHATWG Infra standard) are modelled concretely, and the round trip is proved.
  - HMAC-SHA256, SHA-256 and JSON are function-typed parameters. JSON's round trip is a stated hypothesis (`Types.WellFormed`), never an axiom.
  - The model covers `JWT.sign`, `JWT.verify`, `createJWTPayload` and the bearer middleware, including its `user` slot.
  - It also covers the sign-in and sign-up decision chains and the password hash, which is lowercase hex of a digest.
- **Hashtags.** `extractTagsFromContent` is a loop over the global expression `#([^\s#]+)`, with a length filter and an all-digits filter, that deduplicates in first-occurrence order. `createTagIfNotExists` and `updateMemoTags` act on in-memory tables.
- **The record store.**
  - The D1 tables are the map fields of the class `Schema.Database`. Every handler of `memo.ts`, `user.ts`, `resource.ts` and `workspace.ts` is a method or a function over it that returns a status code and a body.
  - Each state-changing handler's `ensures` gives its whole new state, and lemmas state what the handlers promise on top of that:
    - the creator-or-HOST rule;
    - the PRIVATE read rule with no HOST override;
    - partial updates that write only supplied columns;
    - logical deletion;
    - get-or-create settings;
    - the ordered upload checks;
    - the memo list filter.
- **Frontend adapters.**
  - base-URL normalisation;
  - the memo reshaping in `getMemos`/`getMemo` (names, snippet, state);
  - the `memos/{id}`, `users/{id}` and `workspace/{key}` name round trips;
  - `updateUser`'s field projection;
  - the token the client stores on sign-in and sends back;
  - the tag order of the tag selector: count descending, then name, which relies on a stable sort;
  - its newline-before-tag insertion into an editor buffer, modelled as a class.

The clock (`now`, in seconds, or `nowMs`), freshly generated uids, the caller
(the `user` slot the middleware fills; `None` when it is empty), the request
URL's origin and the browser's host name are parameters. Nothing reads a clock,
a random source or the network.

Modules follow the source: `Token`, `Base64`, `Password`, `TagExtract` and
`TagLinks` for `backend/src/utils.ts`; `AuthMiddleware`; `AuthRoutes` for
`src/routes/auth.ts`; `Schema` (the tables and the shared queries),
`MemoRoutes`, `UserRoutes`, `WorkspaceRoutes` and `ResourceRoutes` for the
route files; `ApiClient`, `GrpcWeb` and `TagSelector` for the frontend; and
`Text`, `Sorting`, `Types` and `Wrappers` for the string functions, the
stable sort with `LIMIT`/`OFFSET`, the shared enumerations and `Option`.

## Model

| member | source | states |
|---|---|---|
| Base64.SextetRoundTrip | backend/src/utils.ts:15-16 | Every encoded character decodes to the six bits it encodes and is neither `=` nor `.` |
| Base64.ToBytesOfFromBytes | backend/src/utils.ts:64 | `String.fromCharCode(...bytes)` is a binary string whose code units are the bytes again |
| Base64.Btoa | backend/src/utils.ts:15-16 | `btoa` throws exactly on text with a code unit above U+00FF |
| Base64.RemoveEquals | backend/src/utils.ts:15-16 | The result of `.replace(/[=]/g, '')` holds no `=` and is no longer than the input |
| Base64.EncodeLength | backend/src/utils.ts:15-16 | The unpadded encoding has four characters per three bytes, and one more character than there are tail bytes |
| Base64.EncodeIsBase64 | backend/src/utils.ts:15-16 | The unpadded encoding uses alphabet characters only |
| Base64.EncodeShape | backend/src/utils.ts:64-65 | Encoded text never holds `=` or `.`, and its length is never one more than a multiple of four, so `atob` accepts it |
| Base64.RemoveEqualsOfPadded | backend/src/utils.ts:15-16 | Removing the `=` from `btoa`'s output gives exactly the unpadded encoding |
| Base64.Atob | backend/src/utils.ts:35 | Whatever `atob` returns is a binary string |
| Base64.DecodeEncode | backend/src/utils.ts:15-35 | Decoding the unpadded encoding of any bytes gives the bytes back |
| Base64.AtobOfEncode | backend/src/utils.ts:35 | `atob` of the unpadded encoding of any bytes succeeds and gives them back as a binary string |
| Base64.EncodeInjective | backend/src/utils.ts:64-65 | Distinct byte strings, and therefore distinct HMAC digests, have distinct encodings |
| Base64.BtoaAtobRoundTrip | backend/src/utils.ts:15-35 | A binary string survives `btoa`, the removal of `=` and `atob`; a string with a code unit above U+00FF makes `btoa` throw |
| Password.HexRoundTrip | backend/src/utils.ts:77-79 | The hex text has two lowercase hex digits per byte, zero-padded, and reads back to the bytes |
| Password.HexInjective | backend/src/utils.ts:77-79 | Distinct digests give distinct hex text |
| Password.Hash | backend/src/utils.ts:72-80 | The hash of any password is 64 lowercase hex characters |
| Password.Verify | backend/src/utils.ts:83-86 | Only a 64-character stored hash, the length of every hash, can verify |
| Password.VerifyAgainstHash | backend/src/utils.ts:72-86 | A password matches another's stored hash exactly when their digests are equal; every password matches its own hash |
| Token.EncodeSegment | backend/src/utils.ts:15-16 | A segment exists exactly for binary text; it is the unpadded encoding, and `atob` gives the text back |
| Token.EncodedHeader | backend/src/utils.ts:10-15 | The encoded header `{"alg":"HS256","typ":"JWT"}` is non-empty base64 text, the same for every token |
| Token.Signature | backend/src/utils.ts:49-66 | The signature is the unpadded base64 of the HMAC-SHA256 digest of the signed data under the secret |
| Token.Split | backend/src/utils.ts:27 | `split('.')` gives at least one piece, and no piece holds a dot |
| Token.SplitJoin | backend/src/utils.ts:27 | Joining the pieces with dots gives the token back |
| Token.SplitAtDot | backend/src/utils.ts:27 | A dot ends the first piece, and splitting carries on after it |
| Token.SplitThree | backend/src/utils.ts:27 | Three dot-free pieces joined with dots split back into the same three |
| Token.Sign | backend/src/utils.ts:9-22 | Signing succeeds exactly when the serialised payload is binary text, the case where `btoa` does not throw |
| Token.Verify | backend/src/utils.ts:25-46 | A payload that `verify` returns has not expired at `now` |
| Token.VerifyAccepts | backend/src/utils.ts:27-35 | Acceptance requires three non-empty pieces, a third piece equal to the recomputed signature and a decodable payload; any missing or empty piece, or any other signature, gives null |
| Token.NoDotInBase64 | backend/src/utils.ts:64-65 | Base64 text never holds a dot |
| Token.SignShape | backend/src/utils.ts:15-21 | An issued token is encoded header, encoded payload and signature, all non-empty alphabet text, and it splits into exactly those three |
| Token.SignVerify | backend/src/utils.ts:9-46 | Round trip: verifying an issued token under the same secret gives the payload back unless it has expired at `now`, and null otherwise |
| Token.ExpiresAfterItsSecond | backend/src/utils.ts:38-40 | A token whose `exp` equals the verification second is accepted; one second later it is rejected |
| Token.SignedTokenIsClean | backend/src/utils.ts:15-21 | An issued token has exactly three pieces, all alphabet text, and no `=` |
| Token.ExtraPiecesIgnored | backend/src/utils.ts:27 | Anything after the third piece does not change the result of `verify` |
| Token.SecretBinding | backend/src/utils.ts:30-33 | A token is accepted under a second secret only when HMAC gives that secret the same digest over its signed data |
| Token.CreateJwtPayload | backend/src/utils.ts:100-114 | The payload carries the uid, the name and the role, with `iat == now` and `exp - iat` equal to the lifetime, seven days by default |
| Token.FreshTokenLifetime | backend/src/utils.ts:100-114 | A default token issued at `issued` verifies at every time up to and including `issued + 604800`, and at no later time |
| AuthMiddleware.BearerToken | backend/src/middleware/auth.ts:22-26 | A token is extracted exactly when the header starts with `Bearer ` (case-sensitive), and it is the header without those seven characters |
| AuthMiddleware.HmacSha256 | backend/src/middleware/auth.ts:71-89 | The middleware's HMAC helper gives the same signature as the one in `JWT` |
| AuthMiddleware.VerifyJwt | backend/src/middleware/auth.ts:45-68 | `verifyJWT` accepts exactly what `JWT.verify` accepts, with the same payload |
| AuthMiddleware.Authenticate | backend/src/middleware/auth.ts:19-42 | A missing or non-bearer header gives 401 `Unauthorized`, and a failed verification gives 401 `Invalid token`; in both cases the `user` slot is untouched and `next` is not called. On success the slot holds the payload before `next` runs |
| AuthMiddleware.IssuedTokenPasses | backend/src/middleware/auth.ts:22-38 | A `Bearer ` header carrying a token issued under the same secret reaches the next handler with that token's payload, unless it has expired |
| Schema.FirstWhere | backend/src/routes/memo.ts:146-148 | `.first()` finds a row meeting the filter exactly when one exists, and finds the lowest such id |
| Schema.IdsWhere | backend/src/routes/user.ts:74-80 | `.all()` selects exactly the ids of the rows meeting the filter, each once, in increasing order |
| Schema.IdsWhereLength | backend/src/routes/user.ts:74-80 | A selection is no larger than its id range |
| Schema.RowsOf | backend/src/routes/user.ts:74-80 | The selected rows are the stored rows under the selected ids, in order |
| Schema.SelectedRowsSound | backend/src/routes/memo.ts:117-124 | Every row of a sorted, windowed selection is a stored row that meets the filter |
| Schema.SelectedRowsComplete | backend/src/routes/memo.ts:117-124 | With no offset and no limit below the id range, every stored row that meets the filter is in the window |
| Schema.UserByUid | backend/src/routes/memo.ts:36-38 | The uid lookup finds a row with that uid, and finds none only when no row has it |
| Schema.UserIdFromUid | backend/src/routes/memo.ts:364-367 | `getUserIdFromUid` returns an id exactly when some user row has that uid, and null otherwise |
| Schema.LinkedIds | backend/src/routes/memo.ts:334-338 | A memo's resource ids are exactly the resource ids of its link rows |
| Schema.WithoutMemo | backend/src/routes/memo.ts:225-227 | The delete keeps exactly the other memos' links, in order |
| Schema.LinksFor | backend/src/routes/memo.ts:57-63 | One link row is inserted per listed id, for that memo, in order |
| Schema.LinkedIdsOfLinksFor | backend/src/routes/memo.ts:334-338 | Reading back the links written for a memo gives the ids in the order they were written |
| Schema.LinkedIdsWithoutMemo | backend/src/routes/memo.ts:225-227 | After its links are deleted, a memo has none |
| Schema.LinkedTagNames | backend/src/routes/memo.ts:341-347 | The tag names of a memo are exactly those of the existing tags its links point to: every listed name is one, and every link of the memo to an existing tag contributes its name |
| Schema.MemoWithDetails | backend/src/routes/memo.ts:326-361 | The details exist exactly when the memo and its creator exist. They copy its id, uid, creator, content, visibility, row status and timestamps, list its linked resource ids in link order, and carry the names of its linked tags |
| Schema.SanitizeHidesHash | backend/src/utils.ts:177-180 | The public view does not depend on the password hash, and keeps every other column |
| Sorting.Sort | backend/src/routes/memo.ts:122 | The sort returns a permutation of its input |
| Sorting.SortSorted | backend/src/routes/memo.ts:122 | The sorted list is a permutation and is ordered |
| Sorting.Window | backend/src/routes/memo.ts:123 | `LIMIT`/`OFFSET` give at most `limit` rows (none when it is negative), taken in order from the offset (zero when negative), and stop short only at the end of the rows; no offset and no binding limit give every row |
| Text.IndexOfFrom | backend/src/routes/workspace.ts:48 | `indexOf` finds the first occurrence at or after the start, and `None` means there is none |
| Text.ReplaceFirst | backend/src/routes/workspace.ts:48 | `replace` with a string pattern rewrites the first occurrence only, and leaves text without one unchanged |
| Text.ReplaceFirstOfPrefix | backend/src/routes/workspace.ts:48 | Removing a prefix that a name starts with gives back what followed it |
| Text.NatToDecimal | frontend/src/api/client.ts:145 | A template literal writes a natural number as non-empty decimal digits, with no leading zero except for 0 itself |
| Text.DigitRun | backend/src/routes/memo.ts:144 | `parseInt` reads the longest prefix of digits |
| Text.ParseIntNegative | backend/src/routes/memo.ts:144 | A leading minus sign negates the number that follows |
| Text.ParseIntUnsigned | backend/src/routes/memo.ts:144 | Without white space or a sign, `parseInt` reads the unsigned number |
| Text.ParseIntOfDecimal | frontend/src/grpcweb.ts:54 | `parseInt` inverts the decimal text of every integer, and stops at the first character that is not a digit |
| TagExtract.RunEnd | backend/src/utils.ts:192 | The greedy `+` ends its run at the first white space, `#` or end of text |
| TagExtract.NextMatch | backend/src/utils.ts:196 | `exec` finds the first `#` at or after `lastIndex` that has a non-empty run after it, and captures that whole run |
| TagExtract.ExtractStep | backend/src/utils.ts:196-202 | One turn of the loop resumes the search at the end of the match |
| TagExtract.ExtractTagsFromContent | backend/src/utils.ts:190-205 | The `exec` loop and the `Set` compute exactly the extracted tags |
| TagExtract.MatchesAreRuns | backend/src/utils.ts:192-196 | Every capture is the maximal run after some `#` |
| TagExtract.RunsAreMatched | backend/src/utils.ts:192-196 | Every maximal run after a `#` is captured |
| TagExtract.ExtractSound | backend/src/utils.ts:190-205 | Every tag is the whole run after some `#`, at least two code units long and not all digits |
| TagExtract.ExtractDistinct | backend/src/utils.ts:193-204 | No tag appears twice |
| TagExtract.ExtractComplete | backend/src/utils.ts:190-205 | Every run after a `#` that passes the filter is a tag |
| TagExtract.ExtractOrder | backend/src/utils.ts:193-204 | Tags come in the order of their first occurrence in the text |
| TagLinks.TagIdFor | backend/src/utils.ts:210-212 | The lookup finds a tag of that name and creator, and finds none only when no such tag exists |
| TagLinks.CreateTagIfNotExists | backend/src/utils.ts:208-230 | An existing tag's id is returned with nothing inserted; otherwise a new tag goes under the next id, and nothing else changes |
| TagLinks.LinkTag | backend/src/utils.ts:243-249 | One turn of the loop gets or creates the tag and appends one link of the memo to it. The only tag it may add is one of that name and creator, when none existed |
| TagLinks.LinkTags | backend/src/utils.ts:241-254 | The loop appends one link per name, in order, each to the creator's tag of that name. Existing tags are kept, and every tag it adds belongs to the creator, carries one of the names, had no earlier tag of that name and creator, and has a name no other added tag has |
| TagLinks.ReplacedLinks | backend/src/utils.ts:238-254 | After the delete and the inserts, the memo's tag names are exactly the new names and all its links are to the creator's tags. Other memos keep exactly their links |
| TagLinks.UpdateMemoTags | backend/src/utils.ts:233-255 | Afterwards the memo's tag names are exactly the tags extracted from its content, in order, each a tag of the creator. Other memos' links and existing tags are unchanged, and the only tags added are the creator's missing tags of extracted names, one per name |
| AuthRoutes.ToAuthUser | src/routes/auth.ts:44-53 | The reply's user copies the id, uid, name, role, email, avatar and timestamps of the row |
| AuthRoutes.AuthUserHidesHash | src/routes/auth.ts:44-53 | The reply's user does not depend on the password hash |
| AuthRoutes.HashPassword | src/routes/auth.ts:152-160 | The route's `hashPassword` is `Password.hash` |
| AuthRoutes.VerifyPassword | src/routes/auth.ts:163-166 | `verifyPassword` is equality with the stored hash, as in `Password.verify` |
| AuthRoutes.SignJwt | src/routes/auth.ts:169-203 | The route's `signJWT` issues the same token as `JWT.sign` |
| AuthRoutes.SessionClaims | src/routes/auth.ts:32-39 | The session payload is the user's uid, name and role, with `exp = iat + 604800` |
| AuthRoutes.NormalUserNamed | src/routes/auth.ts:17-19 | The lookup finds a NORMAL row of that name, and finds none exactly when there is none |
| AuthRoutes.SignIn | src/routes/auth.ts:8-64 | A falsy name or password gives 400 before any lookup. An unknown user and a wrong password both give the identical 401. A verified password gives the session whenever its token can be signed, and a session means the password verified, the reply's user is the row without its hash, and the token is the signed session payload |
| AuthRoutes.SignInIssuesSession | src/routes/auth.ts:32-41 | The token from a successful sign-in verifies to the user's uid, name and role for seven days from `now`, and not after |
| AuthRoutes.NormalUserExists | src/routes/auth.ts:76-82 | The count is positive exactly when some NORMAL user exists |
| AuthRoutes.UsernameTaken | src/routes/auth.ts:85-91 | The name is taken exactly when some row of any status has it |
| AuthRoutes.SignUp | src/routes/auth.ts:67-149 | The checks run in order: 400, then 403 while any NORMAL user exists, then 409 for any existing name; nothing is written when one fails. Otherwise one NORMAL HOST row with the hashed password is inserted and its session is signed |
| AuthRoutes.CreateHost | src/routes/auth.ts:93-143 | The success path inserts exactly the HOST row, reads it back by uid and replies with its session; it gives 500 only where `btoa` throws |
| AuthRoutes.InsertUser | src/routes/auth.ts:99-106 | The insert puts the row under the next id and changes nothing else |
| AuthRoutes.FreshUidFound | src/routes/auth.ts:109-115 | A row inserted under a uid that no row had is the row the uid lookup then finds |
| AuthRoutes.NewHostNamed | src/routes/auth.ts:99-106 | After the sign-up insert, the new name finds the new row |
| AuthRoutes.SignUpThenSignIn | src/routes/auth.ts:8-149 | The first sign-up creates a HOST that can then sign in with the same password |
| MemoRoutes.InsertResourceLinks | backend/src/routes/memo.ts:57-63 | One `memo_resource` row is appended per resource id, in order, and nothing else changes |
| MemoRoutes.CreateMemo | backend/src/routes/memo.ts:19-74 | No caller gives 401, falsy content gives 400 and an unknown caller gives 404, each with no write. Otherwise one NORMAL memo (PRIVATE by default, created and updated now) and its resource links are written, and the reply is its details |
| MemoRoutes.CreatedMemoDetails | backend/src/routes/memo.ts:45-66 | A created memo reads back with the given content, PRIVATE by default, NORMAL, `created_ts == updated_ts`, and the given resource ids after any earlier links |
| MemoRoutes.MemoById | backend/src/routes/memo.ts:175-184 | The path id finds a memo exactly when `parseInt` reads it as a stored memo's id |
| MemoRoutes.JoinedMemoById | backend/src/routes/memo.ts:146-148 | The joined lookup also needs the memo's creator to exist |
| MemoRoutes.GetMemo | backend/src/routes/memo.ts:142-170 | A missing memo gives 404. A PRIVATE memo goes only to its creator, so anyone else, a HOST included, gets 403. Every other memo goes to anyone, with its details |
| MemoRoutes.PatchedMemo | backend/src/routes/memo.ts:199-219 | Supplied content and visibility replace the stored ones. `updated_ts` becomes `now` only when one of them was supplied. Every other column is kept |
| MemoRoutes.BuildMemoUpdates | backend/src/routes/memo.ts:199-216 | The pushed assignments come to more than `updated_ts` exactly when a column was supplied, and then they rewrite a row into the patched row |
| MemoRoutes.PatchMemo | backend/src/routes/memo.ts:173-247 | The guards run in order: 401, then 404 for a missing memo, then 403 unless the caller is the creator or a HOST, with no write on failure. Otherwise only the patched row changes, and a supplied resource list replaces the memo's links |
| MemoRoutes.ApplyMemoPatch | backend/src/routes/memo.ts:216-237 | The writes change the memo row to the patched row and, for a supplied list, replace its resource links; nothing else changes |
| MemoRoutes.PatchedResourceLinks | backend/src/routes/memo.ts:223-237 | A supplied resource list is exactly what the patched memo then reads back |
| MemoRoutes.DeleteMemo | backend/src/routes/memo.ts:250-284 | The same guards as the patch. A permitted delete is logical: the row stays, becomes ARCHIVED with `updated_ts = now`, and nothing else changes |
| MemoRoutes.DeletedMemoStillReads | backend/src/routes/memo.ts:272-276 | An archived memo still reads back, now ARCHIVED, with the same content and links |
| MemoRoutes.BuildMemoFilter | backend/src/routes/memo.ts:80-113 | The terms the handler builds hold exactly when the list rule holds: the row status (NORMAL by default), the creator, the visibility (PUBLIC unless a visibility or a creator is given) and a linked tag of the requested name |
| MemoRoutes.ListMemos | backend/src/routes/memo.ts:77-139 | The reply is the details of the selected rows, in order. A limit or offset that `parseInt` reads as NaN gives 500 |
| MemoRoutes.SelectMemos | backend/src/routes/memo.ts:117-124 | The query selects the memos whose creator exists and that meet the rule, newest first, then the window |
| MemoRoutes.DetailsOf | backend/src/routes/memo.ts:127-131 | Each selected row is replaced by its details, in order |
| MemoRoutes.ListedMemosSound | backend/src/routes/memo.ts:87-124 | Every listed memo is stored, has an existing creator and meets the list rule |
| MemoRoutes.ListedMemosNewestFirst | backend/src/routes/memo.ts:122 | The list is ordered by `created_ts`, newest first |
| MemoRoutes.ListedMemosBounded | backend/src/routes/memo.ts:123 | At most `limit` memos are listed |
| MemoRoutes.ListedMemosComplete | backend/src/routes/memo.ts:87-124 | With no offset and a large enough limit, every memo that meets the rule is listed |
| MemoRoutes.ListDefaults | backend/src/routes/memo.ts:80-104 | Without a row status only NORMAL memos are listed; without a visibility or a creator only PUBLIC ones |
| MemoRoutes.DefaultPage | backend/src/routes/memo.ts:84-85 | Without `limit` and `offset` the page is 50 rows from the start |
| UserRoutes.NormalUserByUid | backend/src/routes/user.ts:30-32 | The lookup finds a NORMAL row of that uid, and finds none exactly when there is none |
| UserRoutes.Me | backend/src/routes/user.ts:21-59 | No caller gives 401. The reply is the caller's own NORMAL row without its password hash, and an archived account gives 404 |
| UserRoutes.SanitizeAll | backend/src/routes/user.ts:74-75 | Every listed row is given without its password hash |
| UserRoutes.ListUsers | backend/src/routes/user.ts:62-88 | Anyone but a HOST gets 403. Otherwise the rows of the requested status (NORMAL by default) are listed, newest first, 50 from the start by default. A NaN limit or offset gives 500 |
| UserRoutes.ListedUsersSound | backend/src/routes/user.ts:74-80 | Every listed user is a stored row of the requested status |
| UserRoutes.ListedUsersNewestFirst | backend/src/routes/user.ts:78-79 | The list is newest first and holds at most `limit` rows |
| UserRoutes.GetUser | backend/src/routes/user.ts:91-109 | The reply holds the public columns of the NORMAL user whose decimal id the path spells, and 404 otherwise |
| UserRoutes.NormalUserById | backend/src/routes/user.ts:114-124 | The path id finds a user exactly when `parseInt` reads it as the id of a NORMAL user |
| UserRoutes.TargetUser | backend/src/routes/user.ts:117-132 | The guard gives 401 without a caller, 404 without a NORMAL target, and 403 unless the caller's uid is the target's or the caller is a HOST |
| UserRoutes.Overwrite | backend/src/routes/user.ts:146-163 | A supplied value replaces the column, and an absent one keeps it |
| UserRoutes.PatchedUser | backend/src/routes/user.ts:138-174 | The supplied profile fields replace the stored ones. `updated_ts` becomes `now` only when one of them was supplied. Uid, role, hash, status and creation time are kept |
| UserRoutes.BuildUserUpdates | backend/src/routes/user.ts:138-170 | The pushed assignments come to more than `updated_ts` exactly when a field was supplied, and then they rewrite a row into the patched row |
| UserRoutes.PatchUser | backend/src/routes/user.ts:112-187 | A guard failure is answered as the guard says, with no write. Otherwise only the target row becomes the patched row, which reads back without its hash |
| UserRoutes.StoreUserPatch | backend/src/routes/user.ts:170-174 | The update turns the row into the patched row, and nothing else changes |
| UserRoutes.PatchedUserStillTarget | backend/src/routes/user.ts:170-174 | A patched user is still the NORMAL user its path names, so the same caller may patch it again |
| UserRoutes.PatchedUserKeepsMe | backend/src/routes/user.ts:170-174 | A profile patch does not change who `GET /me` finds |
| UserRoutes.SettingsAfterGet | backend/src/routes/user.ts:213-233 | After the read the row exists. An existing row is kept, and a missing one is created with `zh`/`system`/`PRIVATE` |
| UserRoutes.GetUserSetting | backend/src/routes/user.ts:190-246 | A guard failure is answered with no write. Otherwise the reply is the target's row, created with the defaults if missing |
| UserRoutes.SettingReadTwice | backend/src/routes/user.ts:213-240 | The first read of a missing row answers the defaults. A second read, at any time, changes nothing and answers the same |
| UserRoutes.PatchedSetting | backend/src/routes/user.ts:279-307 | Only supplied fields change. `updated_ts` becomes `now` only when something was supplied |
| UserRoutes.BuildSettingUpdates | backend/src/routes/user.ts:281-303 | The list is non-empty exactly when a field was supplied, and it rewrites a row into the patched row |
| UserRoutes.InsertedSetting | backend/src/routes/user.ts:308-321 | A missing row is inserted with the truthy supplied fields and the defaults for the falsy ones |
| UserRoutes.PatchUserSetting | backend/src/routes/user.ts:249-343 | A guard failure is answered with no write. Otherwise an existing row takes the supplied fields and a missing one is inserted, and the reply is the stored row |
| UserRoutes.StoreSetting | backend/src/routes/user.ts:279-321 | Only the target's setting row changes: it is patched when present and inserted when missing |
| UserRoutes.SettingHandlersAgree | backend/src/routes/user.ts:308-321 | An empty patch of a missing row stores what reading it would have created, and both replies carry the same name |
| WorkspaceRoutes.Earliest | backend/src/routes/workspace.ts:21-23 | The chosen row exists exactly when there is a row, and none is created earlier |
| WorkspaceRoutes.HostsAreHosts | backend/src/routes/workspace.ts:21-23 | Every candidate owner is a stored HOST |
| WorkspaceRoutes.AllHostsListed | backend/src/routes/workspace.ts:21-23 | Every stored HOST is a candidate owner |
| WorkspaceRoutes.GetProfile | backend/src/routes/workspace.ts:18-35 | The owner is `users/` + the uid of an earliest-created HOST, and `''` exactly when there is no HOST. The version, mode and origin are fixed |
| WorkspaceRoutes.DefaultWorkspaceSetting | backend/src/routes/workspace.ts:51-96 | Each of the three keys has its own kind of entry, named `settings/` + key |
| WorkspaceRoutes.GetWorkspaceSetting | backend/src/routes/workspace.ts:38-108 | Without a name the reply is 400. The three keys (the name without its first `settings/`) answer their entry, and every other key gets 404 |
| WorkspaceRoutes.WorkspaceSettingNameRoundTrip | backend/src/routes/workspace.ts:48-103 | Asking by an entry's own name answers that entry |
| WorkspaceRoutes.LookupAsWritten | backend/src/routes/workspace.ts:98 | Indexing the object literal finds an own entry for the three keys and an inherited member for the `Object.prototype` names |
| WorkspaceRoutes.GetWorkspaceSettingAsWritten | backend/src/routes/workspace.ts:38-103 | As written, every key the lookup finds is answered with 200, the inherited ones included |
| WorkspaceRoutes.PrototypeKeyAnswered | backend/src/routes/workspace.ts:98-101 | `settings/constructor` and its kind are answered with 200 as written, and with 404 as meant |
| WorkspaceRoutes.AsWrittenAgreesOnOwnKeys | backend/src/routes/workspace.ts:98-103 | The two readings agree on every name that is not a prototype member |
| WorkspaceRoutes.PostWorkspaceSetting | backend/src/routes/workspace.ts:111-127 | Anyone but a HOST gets 403. Otherwise the reply echoes `body.setting` when it is truthy and the body otherwise, and nothing is stored |
| ResourceRoutes.MimeTypeOf | src/routes/resource.ts:41 | The MIME type is the file's type, or `application/octet-stream` when that is empty |
| ResourceRoutes.StorageKeyInjective | src/routes/resource.ts:49 | For slash-free uids, the key `uid/filename` determines both the uid and the file name |
| ResourceRoutes.FirstSlash | src/routes/resource.ts:49 | The first slash of a key is the one after the uid |
| ResourceRoutes.ExternalUriKey | src/routes/resource.ts:49-50 | Removing `r2://bucket/` from the external URI gives back the key |
| ResourceRoutes.NewResource | src/routes/resource.ts:66-72 | The inserted row carries the uid, the creator, the file's name and size, the MIME type, `r2://bucket/uid/name` and `now` |
| ResourceRoutes.UploadResource | src/routes/resource.ts:7-97 | The checks run in order: 401, 404, 400, then 413 above 104857600 bytes (exactly 100 MiB passes), then 500 for incomplete storage configuration, then 500 when the upload fails. A failure writes nothing; success inserts exactly the new row and answers it |
| ResourceRoutes.ViewAll | src/routes/resource.ts:120-128 | The listed columns of every row, in order |
| ResourceRoutes.ListResources | src/routes/resource.ts:100-134 | The replies are 401 and 404 as for upload. Otherwise the caller's own resources are listed newest first, 50 from the start by default, and a NaN limit or offset gives 500 |
| ResourceRoutes.OwnResourcesSound | src/routes/resource.ts:120-126 | Only the caller's own stored resources are listed |
| ResourceRoutes.OwnResourcesNewestFirst | src/routes/resource.ts:124-125 | The list is newest first and holds at most `limit` rows |
| ResourceRoutes.WithoutResource | src/routes/resource.ts:165-167 | The delete keeps exactly the links to other resources |
| ResourceRoutes.OwnedResource | src/routes/resource.ts:156-158 | The lookup finds the resource exactly when `parseInt` reads the path as the id of one of the caller's resources |
| ResourceRoutes.DeleteResource | src/routes/resource.ts:137-183 | The replies are 401 and 404 for the caller, and 404 for a resource that is missing or belongs to someone else, each with no write. Otherwise every memo link to the resource is removed, then its row, and nothing else changes |
| ResourceRoutes.DeletedResourceUnlinked | src/routes/resource.ts:165-172 | After a delete no memo lists the resource, and every memo keeps its other links |
| ApiClient.GetApiBaseUrl | frontend/src/api/client.ts:4-22 | A configured URL gets an `https://` prefix unless it starts with `http`. Otherwise the two production hosts use the Workers URL, and every other host gets `''` |
| ApiClient.BaseUrlIdempotent | frontend/src/api/client.ts:6-13 | Configuring a chosen base URL, on any host, chooses it again |
| ApiClient.Utf16Prefix | frontend/src/api/client.ts:156 | `slice(0, n)` keeps the longest prefix of whole characters within `n` UTF-16 code units |
| ApiClient.Utf16PrefixOfBmp | frontend/src/api/client.ts:156 | On text without characters beyond U+FFFF the snippet is exactly the first 100 characters |
| ApiClient.Millis | frontend/src/api/client.ts:158-160 | A truthy timestamp becomes milliseconds; otherwise the current time is used |
| ApiClient.ShapeMemo | frontend/src/api/client.ts:144-163 | The shaped memo is named `memos/{id}`, its creator is `users/{creatorId}`, and the snippet is the first 100 code units or `''`. It is ARCHIVED exactly when the row status is, and the visibility, tags, resources and pin state take their defaults |
| ApiClient.ShapedDetails | frontend/src/api/client.ts:144-163 | A memo from the backend keeps its id, creator, content, tags and resources through the shaping. Its snippet is a prefix of its content, and its state follows its row status |
| ApiClient.GetMemos | frontend/src/api/client.ts:139-172 | Every array element is shaped, in order. A body that is not an array gives no memos, and the next-page token is always `''` |
| ApiClient.OwnDefault | frontend/src/api/client.ts:269-299 | Each of the three keys has its own kind of default |
| ApiClient.GetDefaultSettingAsWritten | frontend/src/api/client.ts:300 | As written, a prototype-member key finds an inherited value instead of `{}` |
| ApiClient.GetDefaultSetting | frontend/src/api/client.ts:268-301 | The three keys answer their defaults, and every other key answers `{}` |
| ApiClient.PrototypeKeyDefault | frontend/src/api/client.ts:300 | `constructor` and its kind answer an inherited member as written, and `{}` as meant |
| ApiClient.DefaultSettingAgrees | frontend/src/api/client.ts:268-301 | The two readings agree on every key that is not a prototype member |
| ApiClient.GetWorkspaceSetting | frontend/src/api/client.ts:260-266 | The setting of a key, with that key's default, is named `workspace/{key}`, and removing the first `workspace/` from the name gives the key back |
| ApiClient.AuthorizationFor | frontend/src/api/client.ts:51-54 | A bearer header is sent exactly when a non-empty token is stored |
| ApiClient.StoredTokenReachesMiddleware | frontend/src/api/client.ts:89-91 | The header sent after storing a token is one from which the middleware extracts that token |
| ApiClient.Client.SignIn | frontend/src/api/client.ts:82-94 | The access token is stored only when the response carries a non-empty one. The response is returned unchanged |
| GrpcWeb.NameRoundTrip | frontend/src/grpcweb.ts:120-123 | Removing the prefix and applying `parseInt` inverts naming by any integer id, even with a non-digit suffix |
| GrpcWeb.ShapedNamesRoundTrip | frontend/src/grpcweb.ts:120-123 | A shaped memo's name and creator parse back to the memo's id and the creator's id |
| GrpcWeb.IdSegment | frontend/src/grpcweb.ts:120-123 | The path segment written for a parsed id reads back to that id under the backend's `parseInt`, and is `NaN` for NaN |
| GrpcWeb.MemoPath | frontend/src/grpcweb.ts:120-130 | `getMemo` and `deleteMemo` address `/api/memo/` + a segment that the backend's `parseInt` reads as the id parsed from the name; `memos/{id}` reaches the route of memo `id` |
| GrpcWeb.UserPath | frontend/src/grpcweb.ts:53-74 | `getUser`, `updateUser` and `deleteUser` address `/api/user/` + a segment that the backend's `parseInt` reads as the id parsed from the name; `users/{id}` reaches the route of user `id` |
| GrpcWeb.GetWorkspaceSetting | frontend/src/grpcweb.ts:30-33 | The adapter answers the default of the key left in the name, and a setting asked for by the name it was reported under is that same setting |
| GrpcWeb.SignIn | frontend/src/grpcweb.ts:39-44 | Without password credentials the adapter throws; with them it passes them to the client |
| GrpcWeb.UpdateUser | frontend/src/grpcweb.ts:59-70 | The request targets the id parsed from the user's name, with a body of exactly the five profile fields |
| GrpcWeb.UpdateUserForwardsOnlyProfile | frontend/src/grpcweb.ts:59-70 | Requests that agree on the name and the five profile fields make the same call, whatever else they carry |
| GrpcWeb.CallClient | frontend/src/grpcweb.ts:75-84 | Calling a method that the client does not define is a `TypeError` |
| GrpcWeb.GetUserSettingAsWritten | frontend/src/grpcweb.ts:75-79 | As written, the read calls `apiClient.getUserSetting(1)`, which the client does not define, so it throws a `TypeError` before any request |
| GrpcWeb.UpdateUserSettingAsWritten | frontend/src/grpcweb.ts:80-84 | As written, the update calls `apiClient.updateUserSetting(1, setting)` and throws the same way, whatever the setting |
| GrpcWeb.OneIsOne | frontend/src/grpcweb.ts:75-84 | The fixed user id 1 is written as `1`, which the route reads as 1 |
| GrpcWeb.GetUserSetting | frontend/src/grpcweb.ts:75-79 | As meant, the read is `GET /api/user/1/setting`, whoever is signed in |
| GrpcWeb.UpdateUserSetting | frontend/src/grpcweb.ts:80-84 | As meant, the update is `PATCH /api/user/1/setting` with the setting as body |
| TagSelector.NameLessTotal | frontend/src/components/MemoEditor/ActionButton/TagSelector.tsx:22 | Code-point order is total on distinct names |
| TagSelector.SortByName | frontend/src/components/MemoEditor/ActionButton/TagSelector.tsx:22 | The first sort orders entries with distinct names strictly by name |
| TagSelector.SortByCountKeepsNameOrder | frontend/src/components/MemoEditor/ActionButton/TagSelector.tsx:22-23 | On a name-sorted list, the stable second sort ranks by count and keeps name order among equal counts |
| TagSelector.TagListIsPermutation | frontend/src/components/MemoEditor/ActionButton/TagSelector.tsx:21-24 | The tag list holds the `tagCount` keys, each once |
| TagSelector.TagListOrder | frontend/src/components/MemoEditor/ActionButton/TagSelector.tsx:21-24 | Tags are listed by count, largest first, and tags with equal counts by name |
| TagSelector.TagInsertion | frontend/src/components/MemoEditor/ActionButton/TagSelector.tsx:35-40 | The inserted text is `#tag `, preceded by a newline exactly when the line is non-empty and ends in neither a space nor U+3000 |
| TagSelector.LineStart | frontend/src/components/MemoEditor/ActionButton/TagSelector.tsx:34 | A line starts at the beginning of the text or just after a newline, and holds no newline before the cursor |
| TagSelector.LineEnd | frontend/src/components/MemoEditor/ActionButton/TagSelector.tsx:34 | A line ends at the first newline at or after the cursor, or at the end of the text |
| TagSelector.CursorLine | frontend/src/components/MemoEditor/ActionButton/TagSelector.tsx:34 | The cursor's line is the newline-free stretch around the cursor |
| TagSelector.Click | frontend/src/components/MemoEditor/ActionButton/TagSelector.tsx:34-40 | A click puts the insertion at the cursor, keeps the text around it, and moves the cursor past it |
| TagSelector.RunAfterHash | frontend/src/components/MemoEditor/ActionButton/TagSelector.tsx:40 | A `#`, a tag run and a space are matched by the backend's expression, which captures exactly the run |
| TagSelector.ClickedTagIsExtracted | frontend/src/components/MemoEditor/ActionButton/TagSelector.tsx:40 | A clicked tag that passes the backend's filter is one of the tags extracted from the edited text |
| TagSelector.ClickStartsWord | frontend/src/components/MemoEditor/ActionButton/TagSelector.tsx:37-40 | With the cursor at the end of its line, the inserted `#` starts a line or follows a space or U+3000 |
| TagSelector.Editor.InsertText | frontend/src/components/MemoEditor/ActionButton/TagSelector.tsx:37-40 | `insertText` puts the text in at the cursor and moves the cursor to its end |
| TagSelector.HandleTagClick | frontend/src/components/MemoEditor/ActionButton/TagSelector.tsx:30-41 | Nothing happens without an editor. Otherwise the buffer and cursor become those of the click on the cursor's line |

## Left out

- HMAC-SHA256, SHA-256 and `JSON.stringify`/`JSON.parse` are function-typed parameters. JSON's round trip is a hypothesis of the lemmas that need it. Constant-time comparison is not modelled, because the code compares with plain equality.
- `TextEncoder` is not modelled. The secret and the signed data reach HMAC as strings; only the digest's bytes are modelled.
- The code points of non-Latin-1 input beyond the `btoa` failure are not modelled.
- SQL text, the D1 API, SQLite type affinity, schema constraints and triggers are not modelled. The tables are maps keyed by row id.
  - `.first()` is the lowest matching id.
  - `ORDER BY created_ts` breaks ties in rowid order.
  - A database error or a failed insert (`result.success` false) is not modelled, and neither is the generic 500 handler that would catch it.
  - The 500 replies that are modelled are a NaN `LIMIT`/`OFFSET`, a failed upload and a `btoa` that throws.
- `null` and `undefined` in request bodies are not told apart: an absent field is `None`, and a present one is `Some`.
- `parseInt` is modelled for decimal text (leading white space, a sign, a `0x` prefix, digits). Precision loss beyond 2^53 is not modelled.
- `localeCompare` is taken as code-point order on strings.
- The `Date` objects of the shaped memo are milliseconds since the epoch.
- MemoRoutes: `relations`, `reactions`, `location` and `parent` are passed through opaquely or left out.
- ApiClient.Utf16Prefix: when the 100th code unit falls inside a surrogate pair, `slice` keeps half the pair, while the model keeps whole characters only.
- `GET /api/memo/stats` is not modelled; the pattern-matching route `GET /:id` in front of it answers first.
- TagLinks.UpdateMemoTags: a tag insert that fails inside the loop is skipped by the code and not modelled, so the contract assumes every insert succeeds.
- The memo routes never call `updateMemoTags`, and the model keeps them apart in the same way.
- The R2 upload (`uploadToR2`, a `fetch` PUT) is the outcome parameter `uploaded`.
- The generated uid is a parameter.
- Deleting the R2 object is not modelled: the code leaves it as a TODO.
- The client's transport (`request`, `fetch`, the error replies) is left out.
  - The modelled client calls are the ones whose results the frontend reshapes: `getMemos`, `getMemo`, `getWorkspaceSetting`, `signIn`.
  - `getCurrentUser`, `getWorkspaceProfile` and the other one-line forwarders are not modelled.
- The constant stubs of `grpcweb.ts` are not modelled: shortcut, inbox, identity provider, resource, stats, webhook and markdown. There is no Markdown parser; `nodes` is always empty.
- `setWorkspaceSetting` echoes its request.
- `workspaceServiceClient.getWorkspaceProfile`'s fallback profile is not modelled.
- TagSelector.HandleTagClick: the editor's `insertText` is insert-at-cursor with no selection. The popover, click-away and rendering are left out.
- The Hono wiring (routing, CORS, the logger, the error handler), every `console` call and `db-debug.js` are not modelled.
- The order of keys in JSON replies is not modelled.

## Findings

| source | as written | input that shows it | evidently intended | confidence | as-written member | corrected member |
|---|---|---|---|---|---|---|
| backend/src/routes/workspace.ts:98-101 | `defaultSettings[key]` on an object literal also finds members inherited from `Object.prototype`, and they are truthy | `GET /api/workspace/setting?name=settings/constructor` is answered with 200 | 404 for every key other than GENERAL, MEMO_RELATED and STORAGE | high; not executed | WorkspaceRoutes.PrototypeKeyAnswered | WorkspaceRoutes.GetWorkspaceSetting |
| frontend/src/api/client.ts:300 | `defaults[key] \|\| {}` finds the inherited member before falling back | `getDefaultSetting('constructor')` returns the `Object` constructor | `{}` for every key other than the three | high; not executed | ApiClient.PrototypeKeyDefault | ApiClient.GetDefaultSetting |
| frontend/src/grpcweb.ts:75-84 | `getUserSetting` and `updateUserSetting` call `apiClient` methods that `ApiClient` (frontend/src/api/client.ts:32-307) does not define | any call to `userServiceClient.getUserSetting()` throws a `TypeError` | `GET`/`PATCH /api/user/1/setting` | high; not executed | GrpcWeb.GetUserSettingAsWritten | GrpcWeb.GetUserSetting |
