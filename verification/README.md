# Verification of UIdentity's parsers, codecs and login state machine

UIdentity logs users in through Keycloak: it starts a login for one of several realms, completes it with a code and a
one-time state, keeps the tokens in cookies, and validates access tokens against a key set. All its parsers and codecs
are written by hand. This project models them, and the state machines on top of them, and proves what they are for.

The model has four layers.

1. **JSON.** `JsonScan` and `JsonExtract` move positions through a text as the source does. `JsonTree` is the
   independent reference: JSON values with white space between their tokens, and their texts (sections 2 to 7 of
   RFC 8259). `JsonScanProofs` shows that the scanner inverts the printer, `JsonTruncation` that it copes with every
   truncated text, `JsonTermination` exactly when it terminates, `JsonLookup` and `JsonMentions` when the textual lookups
   find the right member. `JsonNumbers` has the numbers of section 6 of RFC 8259 and their values, `JsonStrings` what strings
   mean (section 7).
2. **Codecs that undo each other.** `Base64Url` (section 5 of RFC 4648) with its wrapping accumulator, `UrlEncode`
   (section 2.1 of RFC 3986), `Forms`, `Scopes`, `JsonEscape`, `OidcUrls`, `RedisEntry`, `Cookies` and `CookieSession`.
3. **State over runs.** `StateStore` holds both state stores, `StoreRuns` proves them against one map of live entries.
   `Pkce`, `Login`, `LoginProtocol`, `LoginStores` and `LoginProgress` are the login protocol with arbitrary interleavings (sections 4.1
   to 4.6 of RFC 7636), its safety and its progress; `AuthHandler` and `CookieRuns` are callbacks and logouts over a cookie jar.
4. **Token validation.** `Jwt` and `JwtTrees` read tokens, key sets, audiences and roles. `Validator` is the validator
   with its key cache; `TokenMeaning` and `PlainTokens` prove what an accepted token text means (sections 4.1.1 and
   4.1.3 to 4.1.5 of RFC 7519), with `SampleTokens` and `OddTokens` as witnesses; `JwksRuns` is the cache over interleaved runs.

Conventions: a byte string is a `string` whose characters are below 256 (`Text.IsBytes`). Loops of the source are loops
here, proved equal to a function on the text that is left; the theorems are about those functions. A scan whose loop
would never end is `Stall`, and methods require that the scan they need ends. A member named `X.Y.Z` below is member `Z`
of class `Y` in module `X`.

Where the code differs from what one might expect, the model follows the code:

- `skip_json_value` never returns on some texts with a closing bracket of the wrong kind
  (`JsonTermination.TerminatesExactly` says which).
- `extract_json_value` searches for quoted text at any depth, so it can read a nested member
  (`JsonLookup.NestedMentionWins`) or start to scan inside a string. The lookup is right if and only if it reads the first
  member with the name, or none when there is none (`JsonLookup.KeyReached`), or happens to find the same text at another
  place (`JsonLookup.ExtractLookupExactly`). `JsonMentions.KeyFirstExactly` says which trees mention the name first as a
  key, which is what the theorems on trees alone ask for. `JsonTermination.LookupTerminatesExactly` says when a lookup
  returns at all.
- So there are well-formed tokens outside the theorems on the validator: one on which `validate` never returns, before any
  signature is checked (`OddTokens.HeaderStalls`), and an expired one that is accepted, as a nested `exp` is read
  (`OddTokens.NestedExpiryAccepted`).
- `extract_json_int64` reads the digits in front of a fraction or exponent, and a claim that it cannot read counts as
  absent. So a token can be accepted before its `nbf` when that has a fraction or an exponent, does not fit 64 bits or is
  no number (`SampleTokens.EarlyAccepted`), and after its `exp` when that has a negative exponent
  (`SampleTokens.LateAccepted`). It can be refused while it is good when `exp` has an exponent or does not fit 64 bits, or
  `nbf` has a negative exponent (`SampleTokens.WronglyRefused`). `TokenMeaning.ValidatorIsReference` and
  `TokenMeaning.AcceptedExactly` have the exact conditions.
- `parse_json_string` does not decode `\u` escapes, and reads every other string right (`JsonStrings.UnescapeExactly`).
- A token still counts at the very end of its leeway, where section 4.1.4 of RFC 7519 ends it; the reference includes that
  second as leeway (`TokenMeaning.LastSecond`).
- A scalar's slice includes the white space behind it.
- `split_ws` skips six white-space characters but cuts at four (`Scopes.ScopeRoundTrip` has the exact consequence).
- The two state stores treat a time-out that is not positive, or that does not fit an `int`, differently
  (`StoreRuns.AgreeExactly` has the exact condition under which they agree).
- An entry without a verifier does not survive the Redis store (`RedisEntry.SurvivesExactly`).
- When one of the two cookie names, with its underscore, is longer and begins with the other, the access cookie of one
  realm is the refresh cookie of another, and a logout revokes the wrong token. Otherwise, equal names included, every
  logout is right (`CookieRuns.LogoutsAreRightExactly`).
- The authorization URL does not trim the slashes of its base URL, unlike every other endpoint
  (`Login.AuthEndpointExactly`).
- Two validations that find no fresh keys both fetch them (`JwksRuns.InterleavedFetchesCoincide`);
  `JwksRuns.SpacedExactly` says from which states on fetches keep their distance.

## Model

| member | source | states |
|---|---|---|
| JsonScan.SkipWs | include/uidentity/keycloak/detail/json_utils.hpp:13-20 | moves over exactly the leading white space; a position past the end stays |
| JsonScan.SkipJsonString | include/uidentity/keycloak/detail/json_utils.hpp:22-53 | ends behind the closing quote, at the end of an unterminated string, or where it started when no string starts there |
| JsonScan.SkipJsonValue | include/uidentity/keycloak/detail/json_utils.hpp:55-140 | total correctness of the recursive scanner against the value grammar of the specification, on every text on which its loops end |
| JsonScan.SkipMembers | include/uidentity/keycloak/detail/json_utils.hpp:68-100 | the object loop, with optional key, colon and comma, ends where the specification says |
| JsonScan.SkipKey | include/uidentity/keycloak/detail/json_utils.hpp:79-84 | a key and its colon are both optional |
| JsonScan.SkipElements | include/uidentity/keycloak/detail/json_utils.hpp:102-127 | the array loop, with optional comma, ends where the specification says |
| JsonScan.SkipScalar | include/uidentity/keycloak/detail/json_utils.hpp:129-139 | a scalar takes everything up to the next comma or closing bracket |
| JsonScanProofs.StringScan | include/uidentity/keycloak/detail/json_utils.hpp:22-53 | scanning a quoted body with any escapes leaves exactly the text behind the closing quote |
| JsonScanProofs.KeyForms | include/uidentity/keycloak/detail/json_utils.hpp:79-84 | a key without a colon, a colon without a key and neither are each skipped as far as they go |
| JsonScanProofs.ArrayScan | include/uidentity/keycloak/detail/json_utils.hpp:102-127 | scanning any printed array, nested to any depth, leaves exactly the text behind its closing bracket |
| JsonScanProofs.ObjectScan | include/uidentity/keycloak/detail/json_utils.hpp:68-100 | scanning any printed object, nested to any depth, leaves exactly the text behind its closing brace |
| JsonScanProofs.ValueScan | include/uidentity/keycloak/detail/json_utils.hpp:55-140 | the scanner inverts the printer: for every JSON tree with any white space and any text behind it, exactly the value is consumed; a scalar also takes the text up to the next delimiter |
| JsonScanProofs.ExactEnd | include/uidentity/keycloak/detail/json_utils.hpp:55-140 | the same by position: inside any larger text the scan terminates, and an end position is the result if and only if it is the end of the value (behind its white space for a scalar) |
| JsonTruncation.CutValue | include/uidentity/keycloak/detail/json_utils.hpp:55-140 | every proper prefix of a printed value, cut at any byte, is scanned to its end |
| JsonTruncation.TruncatedEnd | include/uidentity/keycloak/detail/json_utils.hpp:55-140 | on a truncated value the scan from the start terminates and returns exactly the length of the text |
| JsonTermination.RunValueSound | include/uidentity/keycloak/detail/json_utils.hpp:55-140 | a bounded execution of the source loops that finishes has the specified result |
| JsonTermination.RunValueComplete | include/uidentity/keycloak/detail/json_utils.hpp:55-140 | where the specification has a result, an execution of at most 2n + 1 calls and iterations reaches it |
| JsonTermination.ArrayMatch | include/uidentity/keycloak/detail/json_utils.hpp:102-127 | inside an array the recursive scanner equals a one-pass bracket matcher with an explicit stack |
| JsonTermination.ObjectMatch | include/uidentity/keycloak/detail/json_utils.hpp:68-100 | inside an object the recursive scanner equals that matcher too |
| JsonTermination.TerminatesExactly | include/uidentity/keycloak/detail/json_utils.hpp:55-140 | the scanner terminates if and only if the matcher meets no closing bracket of the wrong kind |
| JsonTermination.MismatchedBrackets | include/uidentity/keycloak/detail/json_utils.hpp:68-127 | on the texts `[}` and `{]` the scanner never terminates |
| JsonTermination.LookupTerminatesExactly | include/uidentity/keycloak/detail/json_utils.hpp:142-173 | a lookup returns if and only if the scan of the one value that it reads terminates |
| JsonExtract.ExtractJsonValue | include/uidentity/keycloak/detail/json_utils.hpp:142-173 | the lookup loop returns the slice behind the first quoted key that a colon and a non-empty value follow |
| JsonExtract.LookupReads | include/uidentity/keycloak/detail/json_utils.hpp:142-173 | the rounds of the lookup read one place only: behind the first colon behind a mention that a value follows, which is found without scanning |
| JsonExtract.ParseJsonString | include/uidentity/keycloak/detail/json_utils.hpp:175-231 | only a text between quotes is accepted; single-character escapes are undone |
| JsonExtract.ParseStringExactly | include/uidentity/keycloak/detail/json_utils.hpp:175-182 | exactly the texts between two quotes are strings |
| JsonStrings.UnescapeExactly | include/uidentity/keycloak/detail/json_utils.hpp:183-231 | on every string body, all short escapes of RFC 8259 among them, the parser returns the text that is meant, if and only if the body has no `\u` escape |
| JsonStrings.MemberMeant | include/uidentity/keycloak/detail/json_utils.hpp:233-242 | so a string member of an object is read as it is meant if and only if it has no `\u` escape |
| JsonExtract.ExtractJsonString | include/uidentity/keycloak/detail/json_utils.hpp:233-242 | lookup and string parser composed |
| JsonExtract.ExtractJsonInt64 | include/uidentity/keycloak/detail/json_utils.hpp:263-280 | lookup and `stoll` composed, with `None` for its exceptions |
| JsonExtract.SplitJsonArrayElements | include/uidentity/keycloak/detail/json_utils.hpp:324-356 | the splitter loop returns the slices of the elements |
| JsonExtract.ExtractJsonStringArray | include/uidentity/keycloak/detail/json_utils.hpp:358-377 | the strings among the elements, in order |
| JsonExtract.AppendUniqueInto | include/uidentity/keycloak/detail/json_utils.hpp:406-416 | appends what is not yet there |
| JsonLookup.ExtractMember | include/uidentity/keycloak/detail/json_utils.hpp:142-173 | when the place that the search reads is behind the colon of member i, the lookup returns exactly that member's value slice |
| JsonLookup.FirstIsReached | include/uidentity/keycloak/detail/json_utils.hpp:142-173 | a name that is mentioned first as a key, or nowhere, meets the condition of the lookup |
| JsonLookup.ExtractLookup | include/uidentity/keycloak/detail/json_utils.hpp:142-173 | on the text of an object the textual lookup is the lookup in the tree, for present and absent names |
| JsonLookup.ExtractLookupExactly | include/uidentity/keycloak/detail/json_utils.hpp:142-173 | for every object and name, the textual lookup is right if and only if it reads the first member with the name (or nothing when there is none), or finds the same text at another place |
| JsonLookup.NestedMentionWins | include/uidentity/keycloak/detail/json_utils.hpp:142-173 | without the condition the lookup is wrong: a concrete object for which it returns a nested member |
| JsonLookup.HarmlessMention | include/uidentity/keycloak/detail/json_utils.hpp:142-173 | a string with the text of an absent name leads nowhere when no colon follows it |
| JsonLookup.ParseSlice | include/uidentity/keycloak/detail/json_utils.hpp:175-231 | the string parser accepts the slice of a string and the slice of no other value |
| JsonLookup.ExtractStringMember | include/uidentity/keycloak/detail/json_utils.hpp:233-242 | the string of a member, and nothing for a member of another kind |
| JsonNumbers.ParseExactly | include/uidentity/keycloak/detail/json_utils.hpp:263-280 | the reference for number literals: parsing finds a number if and only if it is well-formed and the text is its text |
| JsonNumbers.WholeRead | include/uidentity/keycloak/detail/json_utils.hpp:263-280 | `stoll` reads a number literal as the part in front of its fraction and exponent, if that fits 64 bits |
| JsonLookup.ExtractIntMember | include/uidentity/keycloak/detail/json_utils.hpp:263-280 | the integer of a member if it fits 64 bits, of a number literal the part in front of fraction and exponent, of the literal names nothing; white space behind it does no harm |
| JsonLookup.ExtractOpeningMember | include/uidentity/keycloak/detail/json_utils.hpp:302-322 | the text of an object or array member, and nothing for a member of another kind |
| JsonLookup.SplitElems | include/uidentity/keycloak/detail/json_utils.hpp:332-355 | the splitter cuts any printed element list into exactly its elements |
| JsonLookup.SplitArray | include/uidentity/keycloak/detail/json_utils.hpp:324-356 | the same for a whole printed array |
| JsonLookup.ExtractStringArrayMember | include/uidentity/keycloak/detail/json_utils.hpp:358-377 | the strings among the elements of an array member |
| JsonLookup.StringListRoundTrip | include/uidentity/keycloak/detail/json_utils.hpp:358-377 | a list of strings that was escaped and printed as an array comes back unchanged |
| JsonMentions.OpenedHere | include/uidentity/keycloak/detail/json_utils.hpp:145-150 | the search text can start inside a string, escapes included, only where the string is the name or ends with an escaped quote and the name |
| JsonMentions.Mentioned | include/uidentity/keycloak/detail/json_utils.hpp:145-150 | every key or string of that kind inside a value makes the search text occur in the value's text |
| JsonMentions.NoMention | include/uidentity/keycloak/detail/json_utils.hpp:145-150 | a value without such a key or string does not have the search text in its text, nor across its end |
| JsonMentions.KeyFirstExactly | include/uidentity/keycloak/detail/json_utils.hpp:145-170 | for every JSON object: the name is mentioned first as a key, or nowhere, if and only if the tree has it as a key before any other key or any value shows it |
| JsonEscape.JsonEscape | include/uidentity/handlers/AuthHandler.h:199-233 | the escaping loop equals the escaping of each character |
| JsonEscape.EscapeRoundTrip | include/uidentity/handlers/AuthHandler.h:199-233 | an escaped string is a valid string body and unescapes to the original |
| JsonStrings.EscapeSpells | include/uidentity/handlers/AuthHandler.h:199-233 | the escape of every text spells that text in the sense of RFC 8259 |
| JsonEscape.StringRoundTrip | include/uidentity/keycloak/detail/json_utils.hpp:22-231 | scanning and parsing a quoted escaped string returns it, whatever text follows |
| JsonEscape.ErrorBodyReadBack | include/uidentity/handlers/AuthHandler.h:82-87 | looking up `error` in the callback's error body returns the original error, for every error text |
| JsonStrings.ErrorBodyIs | include/uidentity/handlers/AuthHandler.h:82-87 | the body is the text of the JSON object with `ok` false and the error |
| Base64Url.Base64UrlDecode | include/uidentity/keycloak/detail/jwt_utils.hpp:61-91 | the loop with the wrapping 32-bit accumulator equals decoding without an accumulator |
| Base64Url.WrapKeepsLowBits | include/uidentity/keycloak/detail/jwt_utils.hpp:81-87 | the shift wraps, yet the bits that are still needed and the byte that is cut out are right |
| Base64Url.DecodeExactly | include/uidentity/keycloak/detail/jwt_utils.hpp:61-91 | on every text: bytes are decoded if and only if the text in front of the first padding sign is all digits and they are the concatenation of its n digits without the incomplete byte, floor(6n/8) bytes |
| Base64Url.DigitExactly | include/uidentity/keycloak/detail/jwt_utils.hpp:37-59 | digits are places in the URL-safe alphabet (table 2 of RFC 4648), in both directions |
| Base64Url.Base64UrlEncode | src/keycloak/pkce.cpp:58-90 | replacing two characters and popping the padding gives the URL-safe unpadded encoding |
| Base64Url.RoundTrip | include/uidentity/keycloak/detail/jwt_utils.hpp:61-91 | decoding the unpadded encoding returns every byte string |
| Base64Url.EncodeAlphabet | src/keycloak/pkce.cpp:83-87 | the encoding has only digits of the alphabet, so no dot and no padding |
| UrlEncode.UrlEncode | include/uidentity/utils/url_encode.hpp:24-43 | the loop equals encoding each byte |
| UrlEncode.EncodedExactly | include/uidentity/utils/url_encode.hpp:12-43 | one of the 66 unreserved characters stays, and every other byte becomes a percent sign and its two lower-case hex digits |
| UrlEncode.EncodeSpells | include/uidentity/utils/url_encode.hpp:24-43 | the encoding is one of the spellings of the bytes |
| UrlEncode.UrlDecode | include/uidentity/utils/url_encode.hpp:45-67 | the loop with its jumps equals the recursive decoder, stream extraction quirks included |
| UrlEncode.DecodeSpelled | include/uidentity/utils/url_encode.hpp:45-67 | every spelling of a byte string, with any byte percent-encoded or not and hex digits in either case, is decoded to it |
| UrlEncode.StreamReads | include/uidentity/utils/url_encode.hpp:52-61 | what a percent sign and two characters that are no two hex digits are read as: one digit, a sign or white space in front of it, or nothing |
| UrlEncode.RoundTrip | include/uidentity/utils/url_encode.hpp:24-67 | decoding the encoding returns every byte string |
| UrlEncode.EncodeAlphabet | include/uidentity/utils/url_encode.hpp:12-43 | only unreserved characters and percent signs are written |
| UrlEncode.EncodeSafe | include/uidentity/utils/url_encode.hpp:12-43 | no separator of forms, cookies and paths and no white space occurs in encoded text |
| UrlEncode.EncodeInjective | include/uidentity/utils/url_encode.hpp:24-43 | different byte strings have different encodings |
| UrlEncode.DecodePlain | include/uidentity/utils/url_encode.hpp:45-67 | text without a percent sign decodes to itself |
| Forms.DecodeFormComponent | include/uidentity/handlers/AuthHandler.h:164-171 | plus signs become spaces before decoding |
| Forms.ParseFormEncoded | include/uidentity/handlers/AuthHandler.h:173-197 | the splitting loop inserts the decoded pieces in order, skipping empty ones |
| Forms.BuildFormBody | include/uidentity/keycloak/detail/oidc_utils.hpp:171-190 | the loop joins the encoded fields |
| Forms.FormRoundTrip | include/uidentity/handlers/AuthHandler.h:173-197 | parsing a built body or query gives the fields inserted in order, the last one of a key winning, for every list of byte strings |
| Forms.FormSpelled | include/uidentity/handlers/AuthHandler.h:164-197 | however a sender spells the fields, with plus signs or percent signs, keys without a value and empty pieces, parsing inserts them in order |
| Scopes.SplitOnWhitespace | include/uidentity/keycloak/detail/json_utils.hpp:379-404 | the loop terminates on every input and equals the recursive splitter |
| Scopes.JoinScopeList | include/uidentity/keycloak/auth/pkce_auth_strat.hpp:51-61 | the loop joins with single spaces |
| Scopes.PiecesAreTokens | include/uidentity/keycloak/detail/json_utils.hpp:379-404 | on every input every piece is non-empty and free of cut characters |
| Scopes.ScopeRoundTrip | include/uidentity/keycloak/detail/json_utils.hpp:379-404 | splitting the joined scopes returns them if and only if every scope is a token |
| Scopes.SplitEnumerated | include/uidentity/keycloak/detail/json_utils.hpp:379-404 | a text with any white space around its tokens and one of four characters behind each is split into exactly these |
| OidcUrls.TrimTrailingSlash | include/uidentity/keycloak/detail/oidc_utils.hpp:15-22 | the loop removes the trailing slashes |
| OidcUrls.ParseAuthority | include/uidentity/keycloak/detail/oidc_utils.hpp:106-119 | host and 16-bit port, with the failures of `stoi` |
| OidcUrls.ParseAbsoluteUri | include/uidentity/keycloak/detail/oidc_utils.hpp:89-137 | the index arithmetic of the parser equals splitting the text |
| OidcUrls.ParseForms | include/uidentity/keycloak/detail/oidc_utils.hpp:89-137 | scheme, port, path and query may each be missing: what is parsed then, with the port cut to 16 bits and the failure of its conversion |
| OidcUrls.QuerySlash | include/uidentity/keycloak/detail/oidc_utils.hpp:98-128 | a slash that comes only in the query is taken for the path, to the end of the text |
| OidcUrls.RequestUrl | include/uidentity/keycloak/detail/oidc_utils.hpp:139-169 | the appended pieces are the printed URL |
| OidcUrls.UrlRoundTrip | include/uidentity/keycloak/detail/oidc_utils.hpp:89-169 | a URL with any query survives being parsed into a request and printed, and it makes no difference whether the authority is printed or the host and port |
| OidcUrls.EndpointRoundTrip | include/uidentity/keycloak/detail/oidc_utils.hpp:24-76 | the request built for any endpoint of any base URL of this form and any realm is for exactly that URL |
| OidcUrls.EndpointsGo | include/uidentity/keycloak/detail/oidc_utils.hpp:24-76 | each of the eight endpoints, written out: the request goes to the host and port of the base URL and to the path of the realm with the endpoint's own suffix |
| OidcUrls.EndpointsAreDistinct | include/uidentity/keycloak/detail/oidc_utils.hpp:24-76 | no two endpoints of any realms under one base URL share a URL |
| OidcUrls.LastPathSegment | include/uidentity/keycloak/detail/oidc_utils.hpp:78-87 | the loop and the search return the last segment |
| OidcUrls.LastSegmentExactly | include/uidentity/keycloak/detail/oidc_utils.hpp:78-87 | the last segment, with or without anything in front of it and any slashes behind it |
| OidcUrls.RealmOfRoot | include/uidentity/keycloak/detail/oidc_utils.hpp:24-28 | decoding the last segment of a realm's root returns the realm |
| OidcUrls.RootsAreDistinct | include/uidentity/keycloak/detail/oidc_utils.hpp:24-28 | different realms under one base URL have different roots |
| Pkce.GenerateRandomString | src/keycloak/pkce.cpp:19-35 | each drawn byte picks one character of the charset |
| Pkce.VerifierPicks | src/keycloak/pkce.cpp:15-34 | which character that is: a letter, digit or mark by the remainder modulo 66 |
| Pkce.VerifiersEqualExactly | src/keycloak/pkce.cpp:29-33 | two draws of one length give the same verifier if and only if they agree modulo 66 at every index |
| Pkce.EveryVerifier | src/keycloak/pkce.cpp:19-35 | every text of unreserved characters is the verifier of some draw |
| Pkce.GeneratePkcePair | src/keycloak/pkce.cpp:97-109 | the length is clamped to the nearest allowed one and the challenge is the encoded hash of the verifier; a failing draw is an exception |
| Pkce.VerifierShape | src/keycloak/pkce.cpp:97-109 | a verifier has 43 to 128 unreserved characters, whatever length is configured (section 4.1 of RFC 7636) |
| Pkce.ChallengeShape | src/keycloak/pkce.cpp:105-106 | a challenge has 43 characters of the alphabet and decodes to the hash |
| StateStore.RandomState32 | src/keycloak/state_store/memory.cpp:12-28 | the loop prints the drawn bytes in hex |
| StateStore.HexTextInjective | src/keycloak/state_store/memory.cpp:12-28 | different draws give different states of twice the length |
| StateStore.HexTextAt | src/keycloak/state_store/memory.cpp:20-26 | each byte stands as its two lower-case hex digits |
| StateStore.AllocateExactly | src/keycloak/state_store/memory.cpp:59-74 | the first draw that does not collide decides what is created or reported; when all collide the attempts are exhausted |
| StateStore.MemoryStateStore.CleanupExpired | src/keycloak/state_store/memory.cpp:30-40 | exactly the entries whose deadline is not after now are erased |
| StateStore.MemoryStateStore.CreateStateEntry | src/keycloak/state_store/memory.cpp:53-75 | the whole new map and the result, for all eight attempts, failing draws included |
| StateStore.MemoryStateStore.ConsumeStateEntry | src/keycloak/state_store/memory.cpp:87-103 | the live entry is returned and removed; nothing else but expired entries changes |
| StateStore.RedisServer.SetNxEx | src/keycloak/state_store/redis.cpp:131-136 | SET with NX and EX as an atomic step on keys with deadlines |
| StateStore.RedisServer.GetDel | src/keycloak/state_store/redis.cpp:175-184 | GETDEL as an atomic step |
| StateStore.MakeRedisStore | src/keycloak/state_store/redis.cpp:17-22 | an empty key prefix is refused |
| StateStore.RedisStateStore.Attempt | src/keycloak/state_store/redis.cpp:128-153 | one round of that loop: the draw, its failure, SET NX and its three replies |
| StateStore.RedisStateStore.CreateStateEntry | src/keycloak/state_store/redis.cpp:118-157 | the retry loop over SET NX, each attempt at its own time |
| StateStore.RedisStateStore.ConsumeStateEntry | src/keycloak/state_store/redis.cpp:171-202 | GETDEL, decoding and the fallback for old values |
| RedisEntry.DecodeStateEntry | src/keycloak/state_store/redis.cpp:74-115 | the splitting loop equals folding over the pieces |
| RedisEntry.EntryRoundTrip | src/keycloak/state_store/redis.cpp:69-115 | every entry with a verifier is recovered from its encoding |
| RedisEntry.EntryIsForm | src/keycloak/state_store/redis.cpp:69-72 | the encoding is the form body of the fields `verifier` and `realm` |
| RedisEntry.EntrySpelled | src/keycloak/state_store/redis.cpp:74-115 | whatever other fields there are, in whatever order and spelling, the last verifier and the last realm count |
| RedisEntry.SurvivesExactly | src/keycloak/state_store/redis.cpp:69-202 | an entry survives storing and reading if and only if its verifier is not empty |
| RedisEntry.LegacyVerifier | src/keycloak/state_store/redis.cpp:191-201 | a bare verifier over the unreserved characters is not decoded and comes back unchanged, without realm |
| StoreRuns.MemoryStepRefines | src/keycloak/state_store/memory.cpp:30-103 | each operation on the lazily cleaned map simulates one on the map of live entries, with the same output |
| StoreRuns.RedisAllocates | src/keycloak/state_store/redis.cpp:126-154 | trying states with SET NX ends with the state that looking them up among the live entries finds |
| StoreRuns.RedisStepRefines | src/keycloak/state_store/redis.cpp:118-202 | each operation on the Redis store simulates one on the map of live entries, with the same output |
| StoreRuns.StoresAgree | src/keycloak/state_store/memory.cpp:30-103 | on every run both stores give the same outputs, those of the map of live entries |
| StoreRuns.AgreeExactly | src/keycloak/state_store/redis.cpp:118-202 | both stores agree on every run behind a create if and only if its first draw fails, or its entry has a verifier and its time-out is positive and fits an `int` |
| StoreRuns.TtlKept | src/keycloak/state_store/redis.cpp:122 | the clamp and the cast hand a time-out over unchanged if and only if it is positive and fits an `int` |
| StoreRuns.PerformOnMemory | src/keycloak/state_store/memory.cpp:53-103 | the methods of the memory store perform exactly the steps of the runs |
| StoreRuns.PerformOnRedis | src/keycloak/state_store/redis.cpp:118-202 | the methods of the Redis store perform exactly the steps of the runs |
| StoreRuns.LiveIsOpen | src/keycloak/state_store/memory.cpp:30-103 | on every run the live entries are exactly those of the latest creates that were not consumed since and have not expired |
| StoreRuns.ConsumeIsOneTime | src/keycloak/state_store/memory.cpp:87-103 | on every run, with any time-outs, a consume returns the entry of the latest create of that state unless it was consumed since or has expired, and then nothing |
| StoreRuns.AllocateIsFree | src/keycloak/state_store/memory.cpp:60-66 | a created state was not taken and is one of the drawn ones |
| StoreRuns.CreateKeepsLive | src/keycloak/state_store/memory.cpp:53-75 | a create never overwrites or drops a live entry |
| StoreRuns.EntriesConserved | src/keycloak/state_store/memory.cpp:30-103 | on every run, entries created are entries consumed, entries cleaned up and entries still in the map |
| Login.BuildRealms | include/uidentity/keycloak/multi_realm.hpp:32-58 | succeeds if and only if there are realms and all are complete, and otherwise reports what the first incomplete one lacks; the first configuration of a name stays, the order keeps them all |
| Login.RegisterValid | include/uidentity/keycloak/multi_realm.hpp:37-52 | every configured name is registered, under its own name |
| Login.RegisterFirst | include/uidentity/keycloak/multi_realm.hpp:51-53 | under each name the first configuration of that name is registered |
| Login.CreateAuthorizationUrl | include/uidentity/keycloak/auth/pkce_auth_strat.hpp:77-97 | the pushed parameters give the authorization URL |
| Login.AuthEndpointExactly | include/uidentity/keycloak/auth/pkce_auth_strat.hpp:46-49 | the endpoint that is used is the realm's authorization endpoint if and only if the base URL does not end with a slash |
| Login.MultiRealmManager.StartLogin | include/uidentity/keycloak/multi_realm.hpp:70-83 | on either store: the refusals, the whole new state of the store, and the authorization URL with the allocated state and the challenge of the stored verifier |
| Login.MultiRealmManager.CompleteLogin | include/uidentity/keycloak/multi_realm.hpp:85-118 | on either store: the whole new state of the store and the refusal or the one token request |
| Login.BuildExchange | include/uidentity/keycloak/oauth/token_service.hpp:56-76 | the token request: endpoint of the realm and the form body |
| Login.QueryCarries | include/uidentity/keycloak/auth/pkce_auth_strat.hpp:77-97 | parsing the query of the authorization URL gives exactly its seven parameters, the state, the challenge and `S256` among them |
| Login.BodyCarries | include/uidentity/keycloak/oauth/token_service.hpp:56-76 | parsing the body of the token request gives exactly its fields, the code, the verifier and the optional secret among them, and its URL is the token endpoint, written out |
| LoginProtocol.FlightIsExchanged | include/uidentity/keycloak/multi_realm.hpp:106-118 | after a state was consumed the realm is configured and the verifier is not empty |
| LoginProtocol.NextKeeps | include/uidentity/keycloak/multi_realm.hpp:70-126 | every step of every login keeps the protocol invariant; a step is one attempt to store a login, a callback, a token request or time passing |
| LoginProtocol.AtMostOneExchange | include/uidentity/keycloak/multi_realm.hpp:70-126 | over every interleaving, with either store, each started login leads to at most one token request, and `unknown_realm` and an empty verifier never occur |
| LoginProtocol.ExchangeIsBound | include/uidentity/keycloak/multi_realm.hpp:70-126 | over every interleaving, with either store, every token request goes to the token endpoint, written out, of the realm that was started and carries the verifier whose S256 challenge is in the authorization URL with that login's state |
| LoginStores.PerformStart | include/uidentity/keycloak/multi_realm.hpp:70-83 | on either store the method performs exactly the attempt of the protocol that succeeds, and otherwise nothing |
| LoginStores.PerformAttempt | src/keycloak/state_store/redis.cpp:128-153 | each SET NX of a create, whatever ran before it, performs exactly one attempt of the protocol |
| LoginStores.AdvanceModels | src/keycloak/state_store/memory.cpp:30-40 | what either store holds keeps standing for the live states when time passes |
| LoginStores.PerformCallback | include/uidentity/keycloak/multi_realm.hpp:85-118 | on either store the method performs exactly the callback step, and hands over what the send step sends |
| LoginProgress.RunKeepsWaiting | include/uidentity/keycloak/multi_realm.hpp:70-118 | no run of other logins disturbs a stored login while it lives and its state is not used |
| LoginProgress.RunKeepsFlight | include/uidentity/keycloak/multi_realm.hpp:106-118 | no run of other logins disturbs a login between its callback and its token request |
| LoginProgress.LoginCompletes | include/uidentity/keycloak/multi_realm.hpp:70-118 | behind any run, and with any steps of other logins in between, a stored login whose callback comes in time has its one token request, for its realm and with its verifier, sent or sent next |
| Cookies.TrimCopy | include/uidentity/utils/cookies.hpp:34-49 | the two loops trim both ends |
| CookieSession.TrimExactly | include/uidentity/utils/cookies.hpp:34-49 | trimming takes off exactly the white space at both ends |
| Cookies.ParseCookiePart | include/uidentity/utils/cookies.hpp:62-73 | one piece of the header; empty names are skipped |
| Cookies.ParseCookieHeader | include/uidentity/utils/cookies.hpp:51-83 | the splitting loop inserts the pieces in order |
| Cookies.MakeSetCookie | include/uidentity/utils/cookies.hpp:103-128 | the pair and the attributes in order |
| AuthHandler.AddTokenCookies | include/uidentity/handlers/AuthHandler.h:132-146 | adds exactly the two cookies of the realm |
| AuthHandler.ClearTokenCookies | include/uidentity/handlers/AuthHandler.h:148-155 | adds exactly the two expired cookies of the realm |
| AuthHandler.Callback | include/uidentity/handlers/AuthHandler.h:79-94 | status, headers in order and body for a failed and a finished login |
| AuthHandler.Logout | include/uidentity/handlers/AuthHandler.h:96-129 | the refusals, the revoked token and the response |
| AuthHandler.LogoutForms | include/uidentity/handlers/AuthHandler.h:96-129 | which logout it is, for every query however it is spelled: missing or empty realm, unknown realm, or the realm and the token of its refresh cookie |
| CookieSession.CookieRoundTrip | include/uidentity/utils/cookies.hpp:51-83 | parsing the joined name and value parts of cookies gives the pairs, for non-empty names |
| CookieSession.CookiesSpelled | include/uidentity/utils/cookies.hpp:51-83 | however a user agent spells its cookies, with white space, percent signs, names without a value and pieces without a name, parsing inserts them in order |
| CookieSession.ReceiveSetCookie | include/uidentity/utils/cookies.hpp:103-135 | a user agent that receives the cookie stores exactly its pair, or removes it when the lifetime is zero |
| CookieSession.SetCookieReads | include/uidentity/utils/cookies.hpp:103-128 | a user agent reads exactly the pair and the path, lifetime and flags of the options, in order |
| CookieSession.TokenCookiesRead | include/uidentity/handlers/AuthHandler.h:132-155 | the callback sends the access token with its own lifetime and the refresh token with its own, under the realm's names, with the configured path, flags and `SameSite`; a logout sends both names with lifetime zero |
| CookieSession.LifetimeExactly | include/uidentity/utils/cookies.hpp:110-113 | of these attributes `Max-Age` is the announced lifetime, if any, and no other |
| CookieSession.SetCookieFlags | include/uidentity/utils/cookies.hpp:103-128 | the attributes that a user agent reads show `HttpOnly` and `Secure` if and only if the options have them |
| CookieSession.TokenCookiesAreFlagged | docs/security.md:11-13 | every token cookie that is set or cleared is `HttpOnly`, and `Secure` if and only if the configuration says so |
| CookieRuns.DefaultNamesAreApart | include/uidentity/utils/cookies.hpp:27-28 | the default cookie names keep realms apart |
| CookieRuns.Collision | include/uidentity/handlers/AuthHandler.h:157-162 | when one base name is longer and begins with the other, in either direction, two different realms share a cookie |
| CookieRuns.JarHolds | include/uidentity/handlers/AuthHandler.h:132-155 | for all cookie names, after any run of callbacks and logouts the jar holds exactly the cookies that were set last and not cleared since |
| CookieRuns.HeaderReadBack | include/uidentity/utils/cookies.hpp:51-101 | in whatever order the jar is sent, the handler reads the same cookies |
| CookieRuns.LogoutsAreRightExactly | include/uidentity/handlers/AuthHandler.h:96-162 | for all cookie names: every logout behind every run revokes exactly the non-empty refresh token of the realm's latest callback since its last logout, if and only if neither name begins the longer other one (or nothing is to be revoked) |
| CookieRuns.OthersUnchangedExactly | include/uidentity/handlers/AuthHandler.h:132-162 | for all cookie names: no event changes the cookies of another realm, if and only if the same condition holds |
| Jwt.DecodeCompact | include/uidentity/keycloak/detail/jwt_utils.hpp:93-120 | the index arithmetic equals splitting at the first two dots |
| Jwt.CompactRoundTrip | include/uidentity/keycloak/detail/jwt_utils.hpp:93-120 | decoding a compact serialization gives back header, payload, signature and signed text (section 7.1 of RFC 7515) |
| Jwt.DecodeForms | include/uidentity/keycloak/detail/jwt_utils.hpp:93-120 | every text with two dots: what its parts decode to, and what counts as signed |
| Jwt.TooFewDots | include/uidentity/keycloak/detail/jwt_utils.hpp:97-100 | a text with fewer dots is no token |
| Jwt.ReadJwk | include/uidentity/keycloak/detail/jwt_utils.hpp:138-143 | the five strings of a key |
| Jwt.ReadJwks | include/uidentity/keycloak/detail/jwt_utils.hpp:122-151 | the loop keeps the objects that name a key type |
| Jwt.ReadAudience | include/uidentity/keycloak/detail/jwt_utils.hpp:170-181 | the strings of the list, or the single string |
| Jwt.ReadKey | include/uidentity/keycloak/detail/jwt_utils.hpp:197-215 | one round of the client loop, up to the value |
| Jwt.ReadSlice | include/uidentity/keycloak/detail/jwt_utils.hpp:216-232 | one round of the client loop, from the value on |
| Jwt.ReadClientRoles | include/uidentity/keycloak/detail/jwt_utils.hpp:192-234 | the client loop terminates and equals the recursive reader |
| Jwt.ReadRoles | include/uidentity/keycloak/detail/jwt_utils.hpp:183-237 | realm roles, then client roles |
| JwtTrees.KeySetRead | include/uidentity/keycloak/detail/jwt_utils.hpp:122-151 | for every printed key set, exactly the keys of the tree are read |
| JwtTrees.AudienceRead | include/uidentity/keycloak/detail/jwt_utils.hpp:170-181 | for every printed payload, exactly its audiences are read |
| JwtTrees.AppendUniqueMeans | include/uidentity/keycloak/detail/json_utils.hpp:406-416 | appending without duplicates is taking the first occurrences of the concatenation |
| JwtTrees.ClientRolesRead | include/uidentity/keycloak/detail/jwt_utils.hpp:192-234 | the client loop collects the role lists of all clients in order |
| JwtTrees.RolesRead | include/uidentity/keycloak/detail/jwt_utils.hpp:183-237 | for every printed payload the roles are the realm roles followed by the client roles, later duplicates dropped |
| JwtTrees.RolesAreUnion | include/uidentity/keycloak/detail/jwt_utils.hpp:183-237 | the result holds each role of the union exactly once |
| Validator.CheckConfig | include/uidentity/keycloak/jwt/access_token_validator.hpp:42-53 | which configuration is incomplete; none if and only if it is complete |
| Validator.FindKey | include/uidentity/keycloak/jwt/access_token_validator.hpp:94-103 | the first key with that identifier, or none if there is none |
| Validator.CheckTimes | include/uidentity/keycloak/jwt/access_token_validator.hpp:110-141 | the refusals of issuer and times in their order, on 64-bit sums |
| Validator.MakeContext | include/uidentity/keycloak/jwt/access_token_validator.hpp:161-170 | the whole context |
| Validator.FinishValidation | include/uidentity/keycloak/jwt/access_token_validator.hpp:94-177 | the checks behind the keys, in their order |
| Validator.Fetched | include/uidentity/keycloak/jwt/access_token_validator.hpp:229-248 | a successful fetch has exactly the keys of a 2xx answer, at least one; a failed one reports 502 and whether the answer or its keys were missing |
| Validator.AccessTokenValidator.CachedKeys | include/uidentity/keycloak/jwt/access_token_validator.hpp:217-225 | the cached keys while they are fresh |
| Validator.AccessTokenValidator.FinishRefresh | include/uidentity/keycloak/jwt/access_token_validator.hpp:227-262 | only a good answer is written to the cache |
| Validator.AccessTokenValidator.Validate | include/uidentity/keycloak/jwt/access_token_validator.hpp:40-178 | the result and the whole new cache of one validation |
| TokenMeaning.HeaderRead | include/uidentity/keycloak/jwt/access_token_validator.hpp:55-81 | the header checks on a token text are those on the header tree |
| TokenMeaning.SignatureMeans | include/uidentity/keycloak/detail/jwt_utils.hpp:153-168 | a signature is accepted if and only if the algorithm is one of three names and the primitive accepts it for the modulus and exponent that an RSA key denotes |
| TokenMeaning.EncodedKeySigns | include/uidentity/keycloak/detail/jwt_utils.hpp:245-297 | for a key with encoded modulus and exponent that is the primitive's answer for exactly these |
| TokenMeaning.OtherKeysSignNothing | include/uidentity/keycloak/detail/jwt_utils.hpp:248-258 | a key of another type, or with an empty or undecodable part, signs nothing, whatever the primitive says |
| TokenMeaning.TimesChecked | include/uidentity/keycloak/jwt/access_token_validator.hpp:110-141 | the time checks on a payload text are those on the times that are read from the payload tree |
| TokenMeaning.MeantIsClaimed | include/uidentity/keycloak/jwt/access_token_validator.hpp:110-141 | the reference: judging `exp` and `nbf` as real numbers, with an `nbf` that is no number never reached, is judging whole seconds |
| TokenMeaning.WholeSecondsReadRight | include/uidentity/keycloak/jwt/access_token_validator.hpp:122-141 | times in whole seconds of 64 bits, however they are written, are read right |
| TokenMeaning.WholeNumbers | include/uidentity/keycloak/jwt/access_token_validator.hpp:122-141 | integers of 64 bits are such times, and so are number literals without fraction and exponent |
| TokenMeaning.LastSecond | include/uidentity/keycloak/jwt/access_token_validator.hpp:127-131 | the inclusive end of the leeway differs from an exclusive one exactly at its last second |
| TokenMeaning.PartiesRead | include/uidentity/keycloak/jwt/access_token_validator.hpp:143-159 | the audience checks on a payload text are those on the payload tree |
| TokenMeaning.ContextRead | include/uidentity/keycloak/jwt/access_token_validator.hpp:161-170 | the context of a payload text is that of the payload tree |
| TokenMeaning.RealmIsIssuers | include/uidentity/keycloak/jwt/access_token_validator.hpp:161-168 | the realm that the caller learns is that of the issuer |
| TokenMeaning.RefusedAtOnce | include/uidentity/keycloak/jwt/access_token_validator.hpp:42-64 | the refusals of an incomplete configuration, of no token and of a text that is no token, with their codes |
| TokenMeaning.ServerRefused | include/uidentity/keycloak/jwt/access_token_validator.hpp:83-92 | without keys and without success of the key server, a token with a good header is refused for that |
| TokenMeaning.AnswersFor | include/uidentity/keycloak/jwt/access_token_validator.hpp:40-178 | the answer on a token text, error code included, is that of the reference chain of checks for whatever times the lookups find |
| TokenMeaning.ValidatorAnswers | include/uidentity/keycloak/jwt/access_token_validator.hpp:40-178 | for a readable token those are the times that are read from the payload tree |
| TokenMeaning.ValidatorIsReference | include/uidentity/keycloak/jwt/access_token_validator.hpp:40-178 | the answer on a token text, error code included, is at every time that of a reference validator on trees without a cache, if and only if the checks do not get as far as the times, or the expiry and the time in which the token is good are read right |
| TokenMeaning.AcceptedExactly | include/uidentity/keycloak/jwt/access_token_validator.hpp:40-178 | a token text is accepted at exactly the times at which algorithm, key, signature, issuer, times, audience and party are good, in their own terms, if and only if the token is not genuine or the time in which it is good is read right; and the context is what the claims say |
| TokenMeaning.CacheIsTransparent | include/uidentity/keycloak/jwt/access_token_validator.hpp:83-92 | for every text whatever, cached and fetched keys give the same answer |
| PlainTokens.PlainIsReadable | include/uidentity/keycloak/jwt/access_token_validator.hpp:66-170 | the textual conditions on a token follow from its trees |
| PlainTokens.PlainKeySetReadable | include/uidentity/keycloak/detail/jwt_utils.hpp:122-151 | the textual conditions on a key set follow from its tree |
| PlainTokens.PlainTokenAcceptedExactly | include/uidentity/keycloak/jwt/access_token_validator.hpp:40-178 | the same with all conditions on the trees; for times in whole seconds acceptance is exact outright |
| SampleTokens.SampleAccepted | include/uidentity/keycloak/jwt/access_token_validator.hpp:172-177 | the conditions can all hold: a token whose text and claims are accepted |
| SampleTokens.EarlyAccepted | include/uidentity/keycloak/jwt/access_token_validator.hpp:133-141 | tokens whose text is accepted before the time in `nbf`: a fraction, an exponent, a number beyond 64 bits, a string |
| SampleTokens.LateAccepted | include/uidentity/keycloak/jwt/access_token_validator.hpp:122-131 | a token whose text is accepted after the time in `exp`: a negative exponent |
| SampleTokens.WronglyRefused | include/uidentity/keycloak/jwt/access_token_validator.hpp:122-141 | tokens whose text is refused while their claims are good: an `exp` with an exponent or beyond 64 bits, an `nbf` with a negative exponent |
| OddTokens.HeaderStalls | include/uidentity/keycloak/jwt/access_token_validator.hpp:55-81 | a well-formed header with which `validate` never returns, whatever payload, signature, keys and time |
| OddTokens.NestedExpiryAccepted | include/uidentity/keycloak/jwt/access_token_validator.hpp:122-131 | a well-formed token that is accepted after the time in its `exp`, as the `exp` of a nested object is read |
| JwksRuns.NextKeeps | include/uidentity/keycloak/jwt/access_token_validator.hpp:217-262 | every step of every interleaving keeps the cache invariant |
| JwksRuns.PerformLookup | include/uidentity/keycloak/jwt/access_token_validator.hpp:83-92 | the method performs exactly the lookup step of the runs |
| JwksRuns.PerformAnswer | include/uidentity/keycloak/jwt/access_token_validator.hpp:227-262 | the method performs exactly the answer step of the runs |
| JwksRuns.KeysAreFresh | include/uidentity/keycloak/jwt/access_token_validator.hpp:83-92 | in every interleaving the keys a validation uses are its own successful fetch or the last ones written, read less than the time to live later |
| JwksRuns.FailureChangesNothing | include/uidentity/keycloak/jwt/access_token_validator.hpp:227-248 | behind a failed or empty fetch every continuation does and logs the same as if that validation had just stopped waiting |
| JwksRuns.SequentialNext | include/uidentity/keycloak/jwt/access_token_validator.hpp:83-92 | when no validation waits, the next fetch comes a time to live after the last write |
| JwksRuns.FetchesAreSpaced | include/uidentity/keycloak/jwt/access_token_validator.hpp:217-262 | when validations run one after another, n successful fetches span at least n - 1 times to live |
| JwksRuns.SpacedExactly | include/uidentity/keycloak/jwt/access_token_validator.hpp:83-92 | from a reachable state on, fetches of one validation at a time keep that distance, if and only if at most one validation waits there, and only while the last keys written are stale (or the time to live is not positive) |
| JwksRuns.InterleavedFetchesCoincide | include/uidentity/keycloak/jwt/access_token_validator.hpp:83-92 | two lookups of an empty cache lead to a state that is not of that kind |
| JwksRuns.CacheIsInvisible | include/uidentity/keycloak/jwt/access_token_validator.hpp:83-92 | with a key server that always answers the same, no interleaving changes any answer |
| JwksRuns.EveryRunIsReference | include/uidentity/keycloak/jwt/access_token_validator.hpp:40-178 | after every interleaving the answer on a token text is at every time the reference validator's, under the same exact condition |

## Left out

- OpenSSL: RSA verification is a parameter, any function of modulus, exponent, algorithm, signed text and signature; SHA-256 is a parameter with a 32-byte result. `RAND_bytes` is an input, with its failure; other failures of OpenSSL are left out.
- HTTP sending, requests, coroutines and logging: a send is an arbitrary answer, and a suspension on it a point where other steps interleave. The exception of `stoi` for a bad port in the key set's URL is not part of `Validate`.
- The Redis network client: connection errors and unexpected replies, and what the server says in an error. A key with a deadline is live exactly before it.
- Mutexes: each locked region is one atomic step.
- `\uXXXX` escapes: `JsonStrings.UnescapeExactly` says that exactly the strings with one are read wrong; the theorems on the validator take strings as they are read.
- Malformed JSON beyond truncation: the methods follow the code on it, and it is known when the scanner and the lookups terminate, but no meaning is stated.
- Locales other than C for `isspace`.
- Cookie lifetimes that pass with time: the jar is unexpired, apart from cookies that are removed at once.
- `login` of the handler, the merging of a POST body in `callback`, `get_cookie` on a request object, and the handler's client and token service.
- Discovery, token refresh, revocation requests, introspection and user information; `KeycloakClient`, which is the one-realm case of the manager; the bearer middleware; probes and the forwarding `KeycloakHandler`.
- `extract_json_int` and `extract_json_bool`: easy variants of the lookups that are here.
- `create_state` and `consume_state` of the stores: the entry operations with an empty realm.
- JsonScan.SkipJsonValue: its three loops are methods of their own, as are the loop bodies `SkipKey`, `Jwt.ReadKey`, `Jwt.ReadSlice` and `Cookies.ParseCookiePart`, so that each loop has a contract of its own and its proof stays small.
- Validator.CheckTimes: requires each sum with the clock skew that is added up to be 64-bit, because a larger sum is undefined in the source.
- StoreRuns.StoresAgree: for verifiers that are not empty and time-outs from 1 to the largest 32-bit integer, as it is false of every other create whose first draw does not fail (`StoreRuns.AgreeExactly`). Clocks are unbounded integers: the overflow of a 64-bit time point is not modelled.
- Login.MultiRealmManager.StartLogin: on the Redis store its contract is for a create that nothing interrupts, as a method runs alone; `LoginStores.PerformAttempt` is for each attempt of an interrupted one.
- JsonMentions.KeyFirstExactly: for names without quotes and backslashes that do not begin with white space or punctuation, and for literals without quotes; every name that the validator reads and every literal of RFC 8259 is of this kind.
- The reading of the token endpoint's answer (`parse_token_response`): easy lookups of the kind that is here.
