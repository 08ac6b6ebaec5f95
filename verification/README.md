# Verified model of the Tucano API core

A Dafny model of the parts of the repository that carry state, parsing or
arithmetic, with proofs of what they promise. `dafny verify dfyconfig.toml`
checks all of it.

**The lease and the collection job.** `Redis.dfy` is the server and the client wrapper of
`app/core/cache.py`: SET NX EX, the compare-and-delete script, expiry, and errors
that strike before or after the server acted. `LeaseProtocol.dfy` puts any number
of workers, one server, one clock and an unreliable wire together as a step
relation and proves safety over all runs; `LeaseRefinement.dfy` shows that the client's calls
are steps of it; `RadarTask.dfy` is the acquire, run,
release discipline of `app/radar/tasks.py`, and `TaskRefinement.dfy` the task as a run of
the protocol among other workers. `CacheKey.dfy` with `Sorting.dfy` and
`Text.dfy` is the key builder.

**Masking.** `UrlCredentials.dfy` gives the credentials pattern twice, as a set of
strings and as a scanner, and proves the two equal; completeness and idempotence of
the substitution rest on the fact that no match can straddle a replacement.
`UrlScan.dfy` is the scan as loops. `Masking.dfy` and `Serialization.dfy` carry the
result over trees, normalisation and envelopes, `MaskedKeys.dfy` follows the keys.
`UrlText.dfy` and `SecretText.dfy` spell out on texts what is masked and what is not.

**Tokens and passwords.** `Base64.dfy` models sections 3.2, 4 and 5 of RFC 4648 and
the lenient decoder of the standard library, `Json.dfy` the printer and the parser of the
payload, `Tokens.dfy` and `Passwords.dfy` the dot-joined token and the dollar-joined
record, `Numbers.dfy` decimal text. `Base64Text.dfy`, `JsonText.dfy`, `TokenText.dfy` and
`DecimalText.dfy` spell the same texts out character by character.

**Migrations.** `Database.dfy` is a database as tables, columns, rows and indexes with
NULLs distinct in unique keys, and the operations the migrations are written in;
`Operations` is the migration context that runs them, and a migration is refused as a
whole once one operation is. `Integrity.dfy` proves that no operation can break the
database. `NaturalKeys.dfy` and `KeyHistory.dfy` are the key widenings,
`OtherMigrations.dfy` puts the rest of the history between them,
`ColumnKeys.dfy` the two that add a column, `Confluence.dfy` and `ForkAndMerge.dfy` the
fork and the merge, `Lineage.dfy` and `ReconcileHashes.dfy` the schema-driven loops and
the dropped table, `Rewrites.dfy`, `PendingUpdates.dfy` and `IngestionRename.dfy` the data
rewrites and renames, `StatusRewrite.dfy` and `SourceTypes.dfy` what these make of each row, `NumericWidening.dfy` the numeric columns. Each `upgrade` and
`downgrade` is a method that runs its operations one after the other and is proved equal to
a list of operations; the theorems are about that list, for all databases.

Some properties one might expect do not hold of the code. They are stated as they are:

- `mask_secret` is not idempotent: a text of 16 characters or more without `://` is
  abridged to 11 characters and then to `***`. `MaskSecretIsIdempotentWhen` gives the exact
  condition; two applications are always stable.
- `mask_secrets` does not open sets (`SetsAreNotMasked`) or objects of other kinds;
  `MaskIsCleanExactly` says when its result is clean. `to_jsonable` turns sets into lists
  before, but hands frozensets, deques, dataclasses and the like on as they are, so an
  envelope can show the credentials inside them (`ForeignIsNotMasked`).
  `EnvelopeIsCleanExactly` gives the exact condition, `EnvelopeIsJsonExactly` the one under
  which the JSON encoder accepts the envelope. Keys are never masked (`KeysAreNotMasked`);
  `EnvelopeKeysExactly` says when they are clean.
- `_decodificar_token_usuario` raises on non-ASCII parts, and on a signed payload with an
  infinite expiry, where its signature announces None (`Tokens.RaisesExactly`).
- The base64 decoder skips foreign characters, so a payload has several texts; a token has
  one per payload segment because the signature covers the text (`OneTokenPerPayload`).
- `verificar_senha` raises on some records of its own algorithm (`Passwords.RaisesExactly`).
- `build_cache_key` does not escape: an entry whose value holds `&` collides with two
  parameters (`MergedEntryCollides`), a name that holds `=` with a shorter one
  (`EqualsInNameCollides`); without these two the hashed text determines the parameters.
- The guarded section is exclusive only while the runs end before their leases
  (`OverstayAdmitsAnother`); a run that leaves two workers inside is `SectionCanBeShared`.
- Down after up is the identity for the status rewrite and for `tipo_fonte` under exact
  conditions on the rows only (`PendingUpdates.UndoneExactly`, `IngestionRename.UndoneExactly`),
  and for the lineage indexes exactly when no name was taken (`RoundTripExactly`), because
  CREATE INDEX IF NOT EXISTS accepts a foreign index and DROP INDEX IF EXISTS removes it.

## Model

| member | source | states |
|---|---|---|
| `LeaseProtocol.MutualExclusion` | app/radar/tasks.py:17-27 | in every interleaving of any number of workers, with requests lost, delayed, duplicated or served after their sender gave up, if no run stays inside past its lease then at most one worker is inside the section of a key |
| `LeaseProtocol.AtMostOneUnexpired` | app/core/cache.py:46-53 | whenever two workers are inside, at least one has overstayed its lease |
| `LeaseProtocol.OverstayAdmitsAnother` | app/core/cache.py:46-53 | the premise of mutual exclusion is needed: an overstayed section with a free key can be joined by an idle worker in three steps |
| `LeaseProtocol.SectionCanBeShared` | app/core/cache.py:46-53 | from any start, for any two workers, any key and any lease time, a run of the protocol leaves both inside the section of the key: the first overstays its lease and the second is admitted |
| `LeaseProtocol.InvHolds` | app/core/cache.py:46-62 | the protocol invariant holds in every state of every run: a granted unexpired lease is stored under its owner's token, a release on the wire names a token whose owner has left, every stored lease expires within its time to live |
| `LeaseProtocol.StepKeepsInv` | app/core/cache.py:46-62 | every step of every participant keeps the invariant |
| `LeaseProtocol.ReleaseRemovesOnlyItsOwnLease` | app/core/cache.py:55-62 | a served release removes an entry only if it holds the very token named and its owner has left; all other entries stay |
| `LeaseProtocol.LeaseLasts` | app/core/cache.py:55-62 | a stored lease stays unchanged until it expires or a release naming its own token is served |
| `LeaseProtocol.LeaseIsBounded` | app/core/cache.py:49 | every stored lease expires within the time to live it was asked with |
| `LeaseProtocol.OrphanExpires` | app/core/cache.py:46-62 | no permanent lock, in every run: whoever left a lease behind and however often others asked for the key meanwhile, once the time to live of the lease has passed the key is free or was granted anew in between |
| `LeaseProtocol.AcquiredAfterExpiry` | app/core/cache.py:46-53 | so an acquire that reaches the server after that time returns its token and enters the section, unless another one was granted in between |
| `LeaseProtocol.RefusalIsRecent` | app/core/cache.py:46-53 | whenever the key is taken, the lease in the way was granted less than its own time to live ago |
| `LeaseProtocol.FreeKeyIsAcquired` | app/core/cache.py:46-53 | on a free key an acquire that reaches the server returns its token and enters the section |
| `LeaseProtocol.TimeAdvances` | app/core/cache.py:46-62 | the clock never goes back and a minted token keeps its claim for ever |
| `LeaseProtocol.AnythingCanHappen` | app/core/cache.py:46-62 | in every state a worker may crash and leave its lease and messages behind, a message may be lost, a request be sent twice, and time pass |
| `LeaseRefinement.AcquireIsProtocol` | app/core/cache.py:46-53 | the effect acquire_lock has on the server is that of three steps of the protocol, whatever fault strikes |
| `LeaseRefinement.AcquireLease` | app/core/cache.py:46-53 | a call of the client method by an idle worker, on a server that shows a state of the protocol, ends on a server that shows the state three steps later, with the worker inside exactly when the call returned its token; a lease time that is not positive is refused and nothing is sent |
| `LeaseRefinement.ReleaseIsProtocol` | app/core/cache.py:55-62 | the effect of release_lock at the end of the section is that of three steps of the protocol |
| `LeaseRefinement.ReleaseLease` | app/core/cache.py:55-62 | a call of the client method by the worker inside ends on a server that shows the state three steps later, with the worker idle |
| `Redis.AcquireThenReleaseIsInvisible` | app/core/cache.py:46-62 | SET NX followed by the compare-and-delete script under the same token leaves every key as it was for every reader |
| `Redis.ReadAfterSetNx` | app/core/cache.py:49 | what any reader sees at any later time after SET NX EX: the token on a key that was free, until the lease is over, and nothing else changed |
| `Redis.ReadAfterCompareAndDelete` | app/core/cache.py:58-60 | what any reader sees at any later time after the script: nothing under the key if it showed the token, and nothing else changed |
| `Redis.RedisCache.Get` | app/core/cache.py:31-36 | answers the live value, or None on any client error |
| `Redis.RedisCache.Set` | app/core/cache.py:38-44 | True exactly for a positive lifetime and a healthy request; the entry is stored unless the request was lost or the lifetime refused |
| `Redis.RedisCache.AcquireLock` | app/core/cache.py:46-53 | None exactly when the client errs or the lease time is not positive; otherwise "" when another lease is live and the token when none is; the store as SET NX leaves it, also when only the reply was lost, and unchanged when the request was lost or refused |
| `Redis.RedisCache.ReleaseLock` | app/core/cache.py:55-62 | an empty token and a foreign lease change nothing; otherwise compare-and-delete |
| `Redis.RedisCache.WaitFor` | app/core/cache.py:64-71 | terminates; every poll asks for the key and is answered its live value or, on an error, None; every poll but the last saw nothing; the last poll is the answer, and an answer of None comes from a poll at the deadline or later; the number and spacing of polls are bounded by the interval |
| `RadarTask.Worker.RunTask` | app/radar/tasks.py:13-27 | the collection runs exactly when the lease time is positive, the request healthy and radar-cvm:collection free; the calls made are then acquire, one collection, in incremental mode exactly for the text "incremental", and one release under the token, also when it raises; otherwise acquire alone; the store afterwards, for every store that the other clients leave behind during the collection |
| `TaskRefinement.RunTask` | app/radar/tasks.py:13-27 | the task itself is a run of the lease protocol, whatever fault strikes and whatever steps the other workers take while it collects: the worker ends outside, and at every moment of the collection it is in the section and nobody else is unless one of the two has overstayed its lease |
| `TaskRefinement.CollectionIsExclusive` | app/radar/tasks.py:22-24 | no step of the clock, the server or the others puts the worker out of its section, and the section is exclusive at every moment while no lease is overstayed |
| `CacheKey.KeyIsCanonical` | app/core/cache.py:77-83 | parameter maps with the same non-None entries, in any insertion order and with any None entries, have the same key |
| `CacheKey.KeySeparates` | app/core/cache.py:83 | keys of different endpoints, of different companies or with different short digests never coincide, whatever characters the endpoint holds and whatever the digest of sixty-four characters is |
| `CacheKey.KeysEqualExactly` | app/core/cache.py:82-83 | two keys are equal exactly when endpoint and company are and the digests of the hashed texts begin with the same sixteen characters |
| `CacheKey.KeyText` | app/core/cache.py:82-83 | the parts of a key: namespace, endpoint, company and sixteen characters of the digest, joined by colons |
| `CacheKey.HashedTextGrows` | app/core/cache.py:80-81 | the hashed text spelled out: name=value of the first parameter in the order of names, then &name=value of each further one |
| `CacheKey.PreHashIsInjective` | app/core/cache.py:80-81 | when names avoid = and values avoid &, the hashed text is equal exactly when the given entries are |
| `CacheKey.EqualsInNameCollides` | app/core/cache.py:81 | whenever a name holds =, the query that cuts the name there and moves the rest into the value has the same hashed text |
| `CacheKey.MergedEntryCollides` | app/core/cache.py:81 | any two entries have the same hashed text as the one entry whose value is the rest of it, an & included |
| `CacheKey.AmpersandInValueCollides` | app/core/cache.py:81 | so two different queries share a key (a=1&b=2 as one value) |
| `Sorting.SortIsCanonical` | app/core/cache.py:80 | two lists have the same sorted form exactly when they are permutations of each other |
| `Sorting.SortedFormIsUnique` | app/core/cache.py:80 | a multiset has one sorted form |
| `Sorting.PairLeIsTotalOrder` | app/core/cache.py:80 | the order of pairs of strings is total |
| `Sorting.StringLeExactly` | app/core/cache.py:80 | the order of names: prefix first, otherwise by the first character that differs |
| `UrlCredentials.ScannerIsExact` | app/mcp/security.py:8 | the scanner finds an occurrence at a position exactly when the pattern, as a set of strings, has one there, and it is the only one |
| `UrlCredentials.SubIsClean` | app/mcp/security.py:66-67 | masking is complete: in the result every occurrence of the pattern, wherever it starts, has *** as user and password |
| `UrlCredentials.SubIsIdempotent` | app/mcp/security.py:66-67 | substituting twice is substituting once, on every string |
| `UrlCredentials.SubKeepsEnds` | app/mcp/security.py:8 | no new match straddles a replacement: what an unfinished occurrence needs of the text behind it is there after the substitution exactly when it was there before |
| `UrlCredentials.CleanBehindMasked` | app/mcp/security.py:8 | a masked occurrence in front of clean text adds no occurrence that shows anything, not even one starting inside the scheme |
| `UrlText.PatternExactly` | app/mcp/security.py:8 | the pattern with its three character classes written out character by character |
| `UrlText.CredentialsAreReplaced` | app/mcp/security.py:66-67 | every URL with a non-empty user and password of such characters at the front of a text has both replaced by ***, and the rest of the text is substituted on its own |
| `UrlText.OthersAreKept` | app/mcp/security.py:66-67 | a text that begins with no such URL keeps its first character, and the rest is substituted on its own |
| `UrlText.OtherUsersAreKept` | app/mcp/security.py:8 | an empty user, or one that meets /, @ or white space before its colon, is not replaced |
| `UrlText.OtherPasswordsAreKept` | app/mcp/security.py:8 | an empty password, or one that meets white space before its @, is not replaced |
| `UrlText.NothingIsShown` | app/mcp/security.py:66-67 | however a substituted text is cut, every such URL in it shows *** twice |
| `UrlScan.SubLoop` | app/mcp/security.py:66-67 | the left-to-right loop over the characters computes the substitution |
| `UrlScan.MatchLoop` | app/mcp/security.py:8 | the loop that tries the pattern at one position agrees with the scanner |
| `UrlScan.SubIsLeftmostReplacement` | app/mcp/security.py:8 | the substitution is exactly: cut the text at its leftmost non-overlapping occurrences, replace user and password in each, keep every other character in place |
| `Masking.MaskSecretIsClean` | app/mcp/security.py:43-49 | mask_secret shows no URL credentials, on every string |
| `Masking.MaskSecretOfPlainText` | app/mcp/security.py:47-49 | a text without :// shows its first and last four characters around dots when it has 16 or more, and nothing otherwise |
| `Masking.MaskSecretIsIdempotentWhen` | app/mcp/security.py:43-49 | one application is a fixed point exactly for texts with :// and texts shorter than 16 |
| `Masking.MaskSecretStabilises` | app/mcp/security.py:43-49 | three applications equal two, on every string |
| `Masking.MaskSecrets` | app/mcp/security.py:52-68 | the recursive masker that fills a dictionary in a loop computes Mask |
| `Masking.MaskIsCleanExactly` | app/mcp/security.py:52-68 | a masked tree shows no URL credentials at any depth exactly when the sets, models and other objects the masker does not open, under no secret key and not overwritten by a later equal key, show none themselves |
| `Masking.MaskIsClean` | app/mcp/security.py:52-68 | corollary: a masked tree without sets, models and foreign objects shows no URL credentials at any depth |
| `Masking.SetsAreNotMasked` | app/mcp/security.py:68 | the masker alone leaves a set as it is: every set holding a URL that shows its credentials fails the condition |
| `Masking.MaskSettles` | app/mcp/security.py:52-68 | masking any tree three times is masking it twice |
| `Masking.LookupOfMasked` | app/mcp/security.py:53-61 | a masked dictionary has no two equal keys and holds under each key the masked form of the last value given for it, secret keys through mask_secret(str(value)), and no other key |
| `SecretText.SecretsAreMasked` | app/mcp/security.py:53-58 | the value under a key whose lower-case text has one of the seven keywords anywhere in it becomes mask_secret(str(value)) |
| `SecretText.OthersAreNotSecret` | app/mcp/security.py:59-60 | under a key whose lower-case text has none of the seven in it, the value is masked by its own kind |
| `SecretText.KindsAreMasked` | app/mcp/security.py:62-68 | texts are substituted, lists and tuples become lists of their masked items, other values stay |
| `SecretText.SecretsAreAbridged` | app/mcp/security.py:43-49 | mask_secret on a text with :// is the substitution; on any other text four characters, three dots and four characters from sixteen on, *** below |
| `Serialization.ToJsonableIsJsonExactly` | app/mcp/serialization.py:12-31 | the normalised value is JSON data exactly when no object of a kind the function does not convert is in what it was given, at any depth and not overwritten by a later equal key, and every model dumps to JSON data |
| `Serialization.JsonIsKept` | app/mcp/serialization.py:12-31 | normalisation leaves JSON data as it is, so normalising twice is normalising once |
| `Serialization.KindsAreConverted` | app/mcp/serialization.py:12-31 | dates, decimals and identifiers become their texts, sets sorted lists, lists and tuples lists, models their dumps, and other values stay |
| `Serialization.LimitItems` | app/mcp/serialization.py:34-37 | the converted prefix of the items, its length, and the truncation flag, for every limit, negative ones included |
| `Serialization.EnvelopeIsCleanExactly` | app/mcp/serialization.py:40-57 | an envelope shows no URL credentials at any depth exactly when every unconverted object and model dump that reaches it, under no secret key and not overwritten, shows none; texts, lists, tuples, sets and dictionaries in data, raw and limits are always clean |
| `Serialization.EnvelopeIsJsonExactly` | app/mcp/serialization.py:40-57 | an envelope is JSON data exactly when no unconverted object reaches it, on its own or in a model dump, but for those under a secret key or overwritten |
| `Serialization.ForeignIsNotMasked` | app/mcp/serialization.py:21-31 | the failing input: for every URL with credentials and every plain key, an envelope of a frozenset that holds the URL shows the credentials |
| `Serialization.EnvelopeIsClean` | app/mcp/serialization.py:40-57 | corollary: an envelope of values that to_jsonable converts, sets included, shows no URL credentials at any depth and is JSON data |
| `Serialization.EnvelopeFields` | app/mcp/serialization.py:48-57 | which value an envelope carries under each key: raw and limits win over data, the last of equal keys of data over the earlier ones and over tool and ok, each normalised and masked |
| `Serialization.ResponseEnvelope` | app/mcp/serialization.py:40-57 | the payload built step by step is the specified envelope, None exactly when the conversion raises; it is clean, and it is JSON data, exactly under the stated conditions |
| `Serialization.ErrorResponse` | app/mcp/serialization.py:60-70 | the error envelope is JSON data and clean at any depth, for every message |
| `MaskedKeys.MaskedKeysExactly` | app/mcp/security.py:53-61 | no key of a masked tree shows URL credentials exactly when no key does that the masker is given, those inside values under a secret key or overwritten aside: the code does not mask keys |
| `MaskedKeys.EnvelopeKeysExactly` | app/mcp/serialization.py:40-57 | the same for every key of an envelope, through both passes |
| `MaskedKeys.KeysAreNotMasked` | app/mcp/serialization.py:40-57 | the failing input: a URL with credentials that is a key of data stays in the envelope, whatever its value |
| `Serialization.MaskIsJsonExactly` | app/mcp/security.py:52-68 | a masked value is JSON data exactly when all that the masker hands on without opening it are nulls, flags and numbers |
| `Serialization.MaskKeepsJsonable` | app/mcp/security.py:52-68 | corollary: masking JSON data gives JSON data |
| `Base64.DecodeEncode` | app/api/auth.py:48 | decoding the padded encoding, in either alphabet, gives every byte sequence back |
| `Base64.DecodeEncodeUnpadded` | app/api/auth.py:32-38 | unpadded base64url round trip for every byte sequence; the padding computed from the length is the stripped one; the length is never 1 mod 4; neither . nor = occurs |
| `Base64.PaddingFromLength` | app/api/auth.py:37 | the -len % 4 rule restores exactly the padding of section 3.2 of RFC 4648 |
| `Base64.StandardCharacters` | app/api/auth.py:48 | the padded standard form is ASCII without $ |
| `Base64.DecoderSkipsForeignCharacters` | app/api/auth.py:38 | the decoder is lenient: a character outside the alphabet changes nothing |
| `Base64Text.DigitsAre` | app/api/auth.py:32-33 | the digits of the standard and the URL-safe alphabet by character number |
| `Base64Text.ValuesAre` | app/api/auth.py:38 | the decoder reads exactly these digits, those of both alphabets in the URL-safe form |
| `Base64Text.EncodeOne` | app/api/auth.py:48 | one byte: two digits that spell it with four bits more, and two signs |
| `Base64Text.EncodeTwo` | app/api/auth.py:48 | two bytes: three digits that spell them with two bits more, and one sign |
| `Base64Text.EncodeThree` | app/api/auth.py:48 | three bytes: four digits that spell the same 24-bit number |
| `Base64Text.EncodeGroups` | app/api/auth.py:48 | longer bytes: the texts of their groups of three, one after the other |
| `Base64Text.UnpaddedText` | app/api/auth.py:33 | the stripped text is the padded one without its signs |
| `Tokens.TokenLifetime` | app/api/auth.py:74-110 | a token issued at t0 has four parts despite the dotted prefix and decodes to the user's id at time t exactly when t <= t0 + ttl*60, to None otherwise |
| `Tokens.AcceptedExactly` | app/api/auth.py:88-110 | the texts accepted for an id at a time are exactly prefix, granting payload segment and its signature |
| `Tokens.OneTokenPerPayload` | app/api/auth.py:88-99 | each payload segment has exactly one accepted text |
| `TokenText.AcceptedUnderSecretExactly` | app/api/auth.py:77-99 | a token issued under one secret and decoded under another names its user exactly while it lives and both secrets give its payload segment the same HMAC, and is rejected otherwise |
| `TokenText.IssuedParts` | app/api/auth.py:84-85 | the parts of an issued token: tucano, v1, the payload segment, and a signature that decodes to the HMAC of the segment under the secret |
| `TokenText.IssuedJson` | app/api/auth.py:77-83 | the payload segment decodes to a JSON object with the expiry, the id and the username |
| `TokenText.DecodedExactly` | app/api/auth.py:88-110 | the answer for any four-part text with the prefix: raises on text that is not ASCII, rejects every other signature than the HMAC of the segment, and else goes by what the segment reads as |
| `TokenText.OthersAreRejected` | app/api/auth.py:89-91 | every other text is rejected |
| `TokenText.EscapesExactly` | app/api/auth.py:102-105 | reading a payload raises outside the try block's exceptions exactly when its last exp is a float other than NaN that int() refuses, the infinite ones |
| `TokenText.ReadPayloadExactly` | app/api/auth.py:101-106 | a payload reads as an expiry and an id exactly when its text is a JSON object whose last exp int() reads and whose last sub names the id |
| `Tokens.DecodeAssembled` | app/api/auth.py:88-110 | what the decoder answers for any four-part text with the prefix |
| `Tokens.RaisesExactly` | app/api/auth.py:95-98 | the decoder raises instead of returning None exactly when the last two parts are not both ASCII, or a signed payload carries an infinite expiry |
| `Tokens.NonAsciiRaises` | app/api/auth.py:95-98 | a raising text: four parts of which one is not ASCII |
| `Tokens.SignedInfinityRaises` | app/api/auth.py:98-106 | a raising token: the payload {"exp":Infinity}, signed |
| `Tokens.ReadsDumped` | app/api/auth.py:77-104 | the decoder reads back the expiry and the id that were written, whatever characters the username holds |
| `Json.LoadsDump` | app/api/auth.py:82-102 | loads undoes dumps for every value without floats, by an escaping printer and a full parser (section 7 of RFC 8259) |
| `Json.EscapeBack` | app/api/auth.py:82 | every string, quotes, control characters and surrogate pairs included, is read back from its escaped form |
| `Json.DumpPrintable` | app/api/auth.py:82-83 | a dump is printable ASCII whatever strings it holds, so its UTF-8 form is its characters |
| `JsonText.PayloadText` | app/api/auth.py:82 | the text of a payload: no blanks, exp, sub and username in this order |
| `JsonText.ShortEscapes` | app/api/auth.py:82 | the escapes by one letter, and the characters that stay |
| `JsonText.UnicodeEscape` | app/api/auth.py:82 | every other character of the first plane as four lower-case hexadecimal digits |
| `JsonText.SurrogateEscape` | app/api/auth.py:82 | every character beyond it as two surrogates |
| `JsonText.FractionIsFloat` | app/api/auth.py:102 | a number with a fraction is a float and keeps its text |
| `Text.SplitJoin` | app/api/auth.py:89-90 | splitting gives back joined parts that avoid the separator |
| `Text.JoinSplit` | app/api/auth.py:89 | every text is the join of its parts |
| `Passwords.VerifyHashed` | app/api/auth.py:45-62 | a record made for one password verifies another exactly when both derive the same key under its salt |
| `Passwords.VerifiedExactly` | app/api/auth.py:51-62 | the records a password verifies against, all of them |
| `Passwords.VerifyRecord` | app/api/auth.py:51-62 | the answer for every well-formed record |
| `Passwords.RaisesExactly` | app/api/auth.py:51-62 | verification raises instead of answering exactly on the records of its own algorithm whose count is a number outside the range of the key derivation or whose digest is not ASCII |
| `Passwords.ZeroCountRaises` | app/api/auth.py:51-62 | a raising record: a count of 0, whatever salt and digest |
| `Passwords.NonAsciiDigestRaises` | app/api/auth.py:62 | a raising record: a digest that is not ASCII |
| `Passwords.HashText` | app/api/auth.py:45-48 | the text of a new record: pbkdf2_sha256$600000$, the salt, and the base64 text of the key derived with 600000 rounds |
| `Passwords.VerifyCounted` | app/api/auth.py:51-62 | the answer for a record with any count, whatever its size |
| `Passwords.OtherAlgorithm` | app/api/auth.py:58-59 | a record of any other algorithm is answered no |
| `DecimalText.ParseIntExactly` | app/api/auth.py:54 | int() reads a number from exactly these texts: white space, a sign or none, digits with single underscores between them that stand for it, white space |
| `Numbers.ParseOfDecimal` | app/api/auth.py:54 | int() reads back the text of every iteration count |
| `Integrity.ApplyKeepsValid` | alembic/versions/20260623_004_relax_fre_plano_recompra_classe_acao_tipo.py:20-54 | every schema or row operation that the server accepts keeps types, NOT NULL, unique keys with NULLs distinct, index targets and the shared name space intact |
| `Integrity.RunKeepsValid` | alembic/versions/20260623_004_relax_fre_plano_recompra_classe_acao_tipo.py:20-83 | so does every migration that runs to its end |
| `Integrity.RoundingSettles` | alembic/versions/3b4c5d6e7f8a_widen_fre_numeric_columns.py:90-98 | rounding to a scale and again to it changes nothing |
| `Integrity.RoundingIsNearest` | alembic/versions/3b4c5d6e7f8a_widen_fre_numeric_columns.py:90-98 | rounding gives the nearest value at the scale, away from zero on a tie |
| `NaturalKeys.WiderKeyHolds` | alembic/versions/6e7f8a9b0c1d_expand_fca_fre_natural_keys.py:19-199 | rows valid under a key are valid under every wider key, NULLs being distinct |
| `NaturalKeys.UniqueExactly` | alembic/versions/6e7f8a9b0c1d_expand_fca_fre_natural_keys.py:19-199 | a key holds exactly when no two rows have the same values, none NULL, in all its columns |
| `NaturalKeys.RekeysRun` | alembic/versions/6e7f8a9b0c1d_expand_fca_fre_natural_keys.py:19-199 | a run of constraint replacements succeeds exactly when the rows meet every new key, and then replaced the constraints and nothing else |
| `NaturalKeys.WideningSucceeds` | alembic/versions/6e7f8a9b0c1d_expand_fca_fre_natural_keys.py:19-199 | no widening can be refused, whatever the rows |
| `NaturalKeys.NarrowingSucceedsExactly` | alembic/versions/6e7f8a9b0c1d_expand_fca_fre_natural_keys.py:202-338 | narrowing is refused exactly when two rows of some table agree, without NULLs, on the narrow key |
| `NaturalKeys.WideningIsUndone` | alembic/versions/6e7f8a9b0c1d_expand_fca_fre_natural_keys.py:202-338 | replacing keys and putting the old ones back restores the database |
| `KeyHistory.UpgradeSucceeds` | alembic/versions/6e7f8a9b0c1d_expand_fca_fre_natural_keys.py:19-199 | the upgrade succeeds on every valid database at the revision below and changes only the constraints |
| `KeyHistory.DowngradeUndoesUpgrade` | alembic/versions/6e7f8a9b0c1d_expand_fca_fre_natural_keys.py:202-338 | downgrading right after upgrading restores the database |
| `KeyHistory.DowngradeFailsExactly` | alembic/versions/6e7f8a9b0c1d_expand_fca_fre_natural_keys.py:202-338 | after any further writes the downgrade is refused exactly when two rows collide on a narrow key |
| `KeyHistory.WideningsProper` | alembic/versions/6e7f8a9b0c1d_expand_fca_fre_natural_keys.py:19-199 | each of the listed new keys includes its old key |
| `KeyHistory.HistoryIsContinuous` | alembic/versions/e768d8885a52_expand_fre_relacoes_familiares_and_.py:18-24 | each later revision starts from the key the last earlier one gave the constraint, and no revision replaces a constraint twice |
| `KeyHistory.ChainSucceeds` | alembic/versions/cfcc31a7815b_expand_fre_admin_membro_conselho_.py:18-22 | any chain of linked revisions succeeds on every valid database and changes no row |
| `KeyHistory.ChainIsUndone` | alembic/versions/cfcc31a7815b_expand_fre_admin_membro_conselho_.py:25-29 | downgrading through the whole chain restores the database |
| `OtherMigrations.ChainSucceedsAmong` | alembic/versions/cfcc31a7815b_expand_fre_admin_membro_conselho_.py:18-22 | no revision of a linked chain can be refused, whatever rows were written and whatever migrations ran since the one before it, as long as they left its tables their columns and its constraints as they were |
| `OtherMigrations.SparingRunKeeps` | alembic/versions/5d6e7f8a9b0c_expand_ipe_alternative_key_with_protocolo.py:19-36 | a migration whose operations drop or rename none of those tables, columns and constraints leaves them so, and the database valid |
| `OtherMigrations.HistoryAcceptsAmong` | alembic/versions/e768d8885a52_expand_fre_relacoes_familiares_and_.py:18-24 | so none of 1c2d3e4f5a6b, 6e7f8a9b0c1d, cfcc31a7815b and e768d8885a52 can be refused on its own starting point |
| `OtherMigrations.BetweenIsElsewhere` | alembic/versions/4c5d6e7f8a9b_drop_ipe_protocolo_unique_constraint.py:19-20 | the migrations between 1c2d3e4f5a6b and 6e7f8a9b0c1d, the other branch of the fork and the numeric widening included, have only operations of that kind |
| `OtherMigrations.ExpansionSucceeds` | alembic/versions/6e7f8a9b0c1d_expand_fca_fre_natural_keys.py:19-199 | once 1c2d3e4f5a6b and such migrations have run, 6e7f8a9b0c1d succeeds, whatever rows the database holds |
| `KeyHistory.HistoryAcceptsAllData` | alembic/versions/e768d8885a52_expand_fre_relacoes_familiares_and_.py:18-33 | 1c2d3e4f5a6b, 6e7f8a9b0c1d, cfcc31a7815b and e768d8885a52 in a row applied one directly after the other cannot reject any data, and are undone by their downgrades |
| `KeyHistory.Upgrade6e7f8a9b0c1d` | alembic/versions/6e7f8a9b0c1d_expand_fca_fre_natural_keys.py:19-199 | the calls of the migration, in order, do to the database what the specified operations do |
| `KeyHistory.Downgrade6e7f8a9b0c1d` | alembic/versions/6e7f8a9b0c1d_expand_fca_fre_natural_keys.py:202-338 | the calls of the downgrade, last key first |
| `KeyHistory.Upgrade7b5c9d2e4f11` | alembic/versions/7b5c9d2e4f11_add_data_inicio_exercicio_to_demonstracoes_unique_key.py:19-42 | the calls of the migration |
| `KeyHistory.Downgrade7b5c9d2e4f11` | alembic/versions/7b5c9d2e4f11_add_data_inicio_exercicio_to_demonstracoes_unique_key.py:45-67 | the calls of the downgrade |
| `KeyHistory.Upgrade1c2d3e4f5a6b` | alembic/versions/1c2d3e4f5a6b_add_data_inicio_atuacao_to_fca_dri_unique_key.py:19-33 | the calls of the migration |
| `KeyHistory.Downgrade1c2d3e4f5a6b` | alembic/versions/1c2d3e4f5a6b_add_data_inicio_atuacao_to_fca_dri_unique_key.py:36-49 | the calls of the downgrade |
| `KeyHistory.UpgradeCfcc31a7815b` | alembic/versions/cfcc31a7815b_expand_fre_admin_membro_conselho_.py:18-22 | the calls of the migration |
| `KeyHistory.DowngradeCfcc31a7815b` | alembic/versions/cfcc31a7815b_expand_fre_admin_membro_conselho_.py:25-29 | the calls of the downgrade |
| `KeyHistory.UpgradeE768d8885a52` | alembic/versions/e768d8885a52_expand_fre_relacoes_familiares_and_.py:18-24 | the calls of the migration |
| `KeyHistory.DowngradeE768d8885a52` | alembic/versions/e768d8885a52_expand_fre_relacoes_familiares_and_.py:27-33 | the calls of the downgrade |
| `ColumnKeys.DefaultKeepsCollisions` | alembic/versions/6f2e9b7c1a4d_add_coluna_df_to_demonstracoes_financeiras.py:21-47 | with the default '' two rows collide on the new key exactly when they collided on the old one, for any rows |
| `ColumnKeys.DefaultKeepsUniqueness` | alembic/versions/6f2e9b7c1a4d_add_coluna_df_to_demonstracoes_financeiras.py:21-47 | so the new key rejects exactly the rows the old key rejected |
| `ColumnKeys.NullNeverCollides` | alembic/versions/20260623_004_relax_fre_plano_recompra_classe_acao_tipo.py:20-54 | with NULL in the new column no two old rows collide on the new key, duplicates included |
| `ColumnKeys.Revision6f2e9b7c1a4d` | alembic/versions/6f2e9b7c1a4d_add_coluna_df_to_demonstracoes_financeiras.py:21-72 | adding coluna_df succeeds on every valid database, the downgrade after it restores it, and later fails exactly on a collision of the old key |
| `ColumnKeys.ColunaDfIsEmpty` | alembic/versions/6f2e9b7c1a4d_add_coluna_df_to_demonstracoes_financeiras.py:21-47 | after the upgrade the rows have the empty text in coluna_df, which takes no NULL |
| `ColumnKeys.OldRowsNeverCollide` | alembic/versions/20260623_004_relax_fre_plano_recompra_classe_acao_tipo.py:20-54 | the same for especie_acao |
| `ColumnKeys.Upgrade20260623IsUndone` | alembic/versions/20260623_004_relax_fre_plano_recompra_classe_acao_tipo.py:20-83 | the upgrade succeeds whatever the rows and the downgrade after it restores the database |
| `ColumnKeys.EspecieAcaoIsNull` | alembic/versions/20260623_004_relax_fre_plano_recompra_classe_acao_tipo.py:20-54 | after it the rows have NULL in especie_acao, which is indexed, and tipo_classe_acao_preferencial may be NULL |
| `ColumnKeys.Downgrade20260623FailsExactly` | alembic/versions/20260623_004_relax_fre_plano_recompra_classe_acao_tipo.py:57-83 | later the downgrade fails exactly when two rows collide on the old key or a row has no tipo_classe_acao_preferencial |
| `ColumnKeys.Upgrade6f2e9b7c1a4d` | alembic/versions/6f2e9b7c1a4d_add_coluna_df_to_demonstracoes_financeiras.py:21-47 | the calls of the migration |
| `ColumnKeys.Downgrade6f2e9b7c1a4d` | alembic/versions/6f2e9b7c1a4d_add_coluna_df_to_demonstracoes_financeiras.py:50-72 | the calls of the downgrade |
| `ColumnKeys.Upgrade20260623_004` | alembic/versions/20260623_004_relax_fre_plano_recompra_classe_acao_tipo.py:20-54 | the calls of the migration |
| `ColumnKeys.Downgrade20260623_004` | alembic/versions/20260623_004_relax_fre_plano_recompra_classe_acao_tipo.py:57-83 | the calls of the downgrade |
| `Confluence.ApplyIsLocal` | alembic/versions/8e9f0a1b2c3d_merge_fca_dri_and_financeiro_heads.py:11-14 | an operation does to a database what it does to the relations it names alone, and leaves the rest |
| `Confluence.ShuffleRunsBranchesApart` | alembic/versions/8e9f0a1b2c3d_merge_fca_dri_and_financeiro_heads.py:11-14 | in any interleaving each branch runs on its own relations as if it were alone; the run fails exactly when one of them does |
| `Confluence.ShufflesAgree` | alembic/versions/8e9f0a1b2c3d_merge_fca_dri_and_financeiro_heads.py:11-14 | any two interleavings of operation lists on disjoint relations agree in success and result |
| `Confluence.ShuffleExactly` | alembic/versions/8e9f0a1b2c3d_merge_fca_dri_and_financeiro_heads.py:11-14 | the interleavings are exactly the ways of giving each operation to one of the two branches so that each is given its own list |
| `ForkAndMerge.ForkIsConfluent` | alembic/versions/8e9f0a1b2c3d_merge_fca_dri_and_financeiro_heads.py:11-22 | for any such fork every interleaving of the upgrades succeeds with one database and every interleaving of the downgrades restores the first |
| `ForkAndMerge.MergeIsSound` | alembic/versions/8e9f0a1b2c3d_merge_fca_dri_and_financeiro_heads.py:11-22 | every linearisation of 6f2e9b7c1a4d and 7b5c9d2e4f11 with 1c2d3e4f5a6b, up or down, has the same outcome |
| `ForkAndMerge.BranchesAreTheMigrations` | alembic/versions/8e9f0a1b2c3d_merge_fca_dri_and_financeiro_heads.py:11-14 | the branches are the operations of those three migrations |
| `Lineage.TableNamesWithLineage` | alembic/versions/20260616_003_optimize_reconcile_indexes.py:23-30 | the loop returns the sorted list of exactly the tables with all three lineage columns, for any schema and any order of the inspector |
| `Lineage.LineageListIsUnique` | alembic/versions/20260616_003_optimize_reconcile_indexes.py:30 | that list does not depend on the order of the inspector |
| `Lineage.UpLineageIndexes` | alembic/versions/20260616_003_optimize_reconcile_indexes.py:48-56 | the loop never fails, keeps every index, and adds only wanted ones, skipping names that are taken |
| `Lineage.LoopIndexesExactly` | alembic/versions/20260616_003_optimize_reconcile_indexes.py:48-56 | when no name is taken, exactly the tables with all three columns, ingestion_reconcile_hashes aside, gain their index |
| `Lineage.LoopIndexes` | alembic/versions/20260616_003_optimize_reconcile_indexes.py:48-56 | the same with the three columns, the excepted table, the names and the columns of the indexes spelled out |
| `Lineage.DownLineageDrops` | alembic/versions/20260616_003_optimize_reconcile_indexes.py:61-64 | the drop loop fails exactly when a name belongs to a table or a constraint, and otherwise drops exactly the named indexes |
| `Lineage.Upgrade20260616_003` | alembic/versions/20260616_003_optimize_reconcile_indexes.py:33-56 | the create_index and the loop with its continue |
| `Lineage.Downgrade20260616_003` | alembic/versions/20260616_003_optimize_reconcile_indexes.py:59-65 | the loop and the drop_index |
| `ReconcileHashes.UpIsDropTable` | alembic/versions/20260626_002_drop_ingestion_reconcile_hashes.py:21-39 | the guarded loop fails exactly when a listed index backs a constraint; otherwise it leaves what DROP TABLE leaves, and nothing changes without the table |
| `ReconcileHashes.DropIsUndone` | alembic/versions/20260626_002_drop_ingestion_reconcile_hashes.py:42-98 | creating the table and its seven indexes again restores everything but its rows |
| `ReconcileHashes.RoundTripExactly` | alembic/versions/20260616_003_optimize_reconcile_indexes.py:33-65 | up through both revisions and back never fails before the last downgrade and restores the database, the dropped rows aside, exactly when no lineage index name was taken |
| `ReconcileHashes.PreviousRevisionIsStart` | alembic/versions/20260616_002_add_ingestion_lifecycle_snapshots.py:208-257 | the premise of the round trip is the table as 20260616_002 leaves it |
| `ReconcileHashes.Upgrade20260626_002` | alembic/versions/20260626_002_drop_ingestion_reconcile_hashes.py:21-39 | the guard, the loop over the seven names and the drop |
| `ReconcileHashes.Downgrade20260626_002` | alembic/versions/20260626_002_drop_ingestion_reconcile_hashes.py:42-98 | create_table and seven create_index calls |
| `Rewrites.UpdatedExactly` | alembic/versions/20260715_001_add_acknowledged_artifact_references.py:87-96 | an UPDATE fails exactly when its condition raises on some row; otherwise it keeps number and order of the rows and rewrites exactly those that meet it |
| `Rewrites.UpdateRuns` | alembic/versions/20260715_001_add_acknowledged_artifact_references.py:87-96 | on keys that do not use the column it succeeds exactly when the condition never raises and changes nothing else |
| `PendingUpdates.UpDownOfRow` | alembic/versions/20260715_001_add_acknowledged_artifact_references.py:87-107 | a row comes back from up and down exactly when it had no new status; all other fields are kept |
| `PendingUpdates.UpRuns` | alembic/versions/20260715_001_add_acknowledged_artifact_references.py:20-96 | what the upgrade leaves; it fails exactly when a ready update has a total that is not an integer |
| `StatusRewrite.UpgradeRewritesExactly` | alembic/versions/20260715_001_add_acknowledged_artifact_references.py:88-96 | on rows: exactly the ready updates whose total_changes stands for 0 become content_unchanged, all other rows stay, and the statement fails exactly when a ready update has a text there that stands for no 32-bit integer |
| `StatusRewrite.CastExactly` | alembic/versions/20260715_001_add_acknowledged_artifact_references.py:94 | the texts the cast reads: blanks, a sign or none, digits, blanks, within 32 bits |
| `StatusRewrite.DecimalTotal` | alembic/versions/20260715_001_add_acknowledged_artifact_references.py:94 | a total written as the decimal text of a 32-bit number counts as 0 exactly when it is 0 |
| `StatusRewrite.UpgradeCreates` | alembic/versions/20260715_001_add_acknowledged_artifact_references.py:21-85 | the new table is empty and has its unique key and its indexes, and every relation of before is there |
| `StatusRewrite.DowngradeRewritesExactly` | alembic/versions/20260715_001_add_acknowledged_artifact_references.py:99-107 | exactly the updates that are content_unchanged or reference_updated become ready_for_ingestion, whatever the rows have become |
| `PendingUpdates.UndoneExactly` | alembic/versions/20260715_001_add_acknowledged_artifact_references.py:99-124 | on PostgreSQL the downgrade succeeds after the upgrade and restores the database exactly when no update had a new status |
| `PendingUpdates.UndoneElsewhere` | alembic/versions/20260715_001_add_acknowledged_artifact_references.py:87-107 | on other dialects no row is rewritten and the downgrade always restores the database |
| `PendingUpdates.FreeNamesSuffice` | alembic/versions/20260715_001_add_acknowledged_artifact_references.py:21-85 | for the names and columns of the migration the schema part only needs free names |
| `PendingUpdates.Upgrade20260715_001` | alembic/versions/20260715_001_add_acknowledged_artifact_references.py:20-96 | the calls of the migration and the guarded statement |
| `PendingUpdates.Downgrade20260715_001` | alembic/versions/20260715_001_add_acknowledged_artifact_references.py:99-124 | the guarded statement and the calls of the downgrade |
| `IngestionRename.UpLeavesNoV2` | alembic/versions/b1f0c8f4b7aa_rename_ingestion_v2_runtime_to_ingestion.py:38-46 | no cadastro_v2 is left; every other field and the number of rows are kept |
| `IngestionRename.UpDownUp` | alembic/versions/b1f0c8f4b7aa_rename_ingestion_v2_runtime_to_ingestion.py:38-60 | up, down and up again is up, on every list of rows |
| `IngestionRename.UpDownExactly` | alembic/versions/b1f0c8f4b7aa_rename_ingestion_v2_runtime_to_ingestion.py:38-60 | the downgrade restores the rows exactly when the tag said v2 on the runs of the register files and on no other |
| `IngestionRename.RenamesAreUndone` | alembic/versions/b1f0c8f4b7aa_rename_ingestion_v2_runtime_to_ingestion.py:64-75 | renaming indexes to free names and back restores every index |
| `IngestionRename.IndexRenamesApart` | alembic/versions/b1f0c8f4b7aa_rename_ingestion_v2_runtime_to_ingestion.py:25-35 | the eighteen index names of the migration are all different |
| `IngestionRename.FreeNamesSuffice` | alembic/versions/b1f0c8f4b7aa_rename_ingestion_v2_runtime_to_ingestion.py:23-36 | for the names of the migration the renames only need the old table and free new names |
| `IngestionRename.UpRuns` | alembic/versions/b1f0c8f4b7aa_rename_ingestion_v2_runtime_to_ingestion.py:20-46 | the upgrade always succeeds from its starting point and has this result |
| `SourceTypes.UpgradeRewritesExactly` | alembic/versions/b1f0c8f4b7aa_rename_ingestion_v2_runtime_to_ingestion.py:38-46 | on rows: exactly the runs of cadastro_v2 become cadastro |
| `SourceTypes.DowngradeRewritesExactly` | alembic/versions/b1f0c8f4b7aa_rename_ingestion_v2_runtime_to_ingestion.py:52-60 | on rows: exactly the runs of cadastro on one of the two register files become cadastro_v2 |
| `SourceTypes.UpgradeRenames` | alembic/versions/b1f0c8f4b7aa_rename_ingestion_v2_runtime_to_ingestion.py:25-36 | each of the nine indexes that exists is found under its name without the _v2, on the renamed table |
| `SourceTypes.TableIsRenamed` | alembic/versions/b1f0c8f4b7aa_rename_ingestion_v2_runtime_to_ingestion.py:23 | quarantine_items_v2 is found as quarantine_items with its rows |
| `IngestionRename.UndoneExactly` | alembic/versions/b1f0c8f4b7aa_rename_ingestion_v2_runtime_to_ingestion.py:49-75 | the downgrade succeeds after it and restores the whole database exactly under the same condition |
| `IngestionRename.RedoneIsDone` | alembic/versions/b1f0c8f4b7aa_rename_ingestion_v2_runtime_to_ingestion.py:20-75 | on the whole database, up, down and up again is up |
| `IngestionRename.UpgradeB1f0c8f4b7aa` | alembic/versions/b1f0c8f4b7aa_rename_ingestion_v2_runtime_to_ingestion.py:20-46 | the calls and the loop of the migration |
| `IngestionRename.DowngradeB1f0c8f4b7aa` | alembic/versions/b1f0c8f4b7aa_rename_ingestion_v2_runtime_to_ingestion.py:49-75 | the calls and the loop of the downgrade |
| `NumericWidening.PrecisionChangesExactly` | alembic/versions/3b4c5d6e7f8a_widen_fre_numeric_columns.py:91-98 | changing the precision alone fails exactly when a value is out of range, and changes no value |
| `NumericWidening.AltersRunExactly` | alembic/versions/3b4c5d6e7f8a_widen_fre_numeric_columns.py:90-109 | for any list of columns the loop fails exactly when some value is out of range, and otherwise changes the listed precisions only |
| `NumericWidening.WideningSucceeds` | alembic/versions/3b4c5d6e7f8a_widen_fre_numeric_columns.py:90-98 | widening cannot fail and every stored value stays what it was |
| `NumericWidening.NarrowingUndoesWidening` | alembic/versions/3b4c5d6e7f8a_widen_fre_numeric_columns.py:101-109 | the reversed loop restores the database, whatever the list |
| `NumericWidening.NarrowingFailsExactly` | alembic/versions/3b4c5d6e7f8a_widen_fre_numeric_columns.py:101-109 | later the downgrade fails exactly when some listed column holds a value of magnitude 10^20 or more |
| `NumericWidening.RangeIsMagnitude` | alembic/versions/3b4c5d6e7f8a_widen_fre_numeric_columns.py:91-98 | a value with s decimals fits p digits exactly when its magnitude is below 10^(p-s) |
| `NumericWidening.Upgrade3b4c5d6e7f8a` | alembic/versions/3b4c5d6e7f8a_widen_fre_numeric_columns.py:90-98 | the loop over the sixty-five columns |
| `NumericWidening.Downgrade3b4c5d6e7f8a` | alembic/versions/3b4c5d6e7f8a_widen_fre_numeric_columns.py:101-109 | the loop over the reversed list |

## Left out

Taken as given:

- HMAC-SHA256, PBKDF2, SHA-256, `secrets.token_urlsafe` and clocks are parameters; a token of the lease is one never used before and not empty.
- The text that `json.loads` reads from bytes, `int()` of a float, `str()` of a JSON value that is not a text, and the canonical text of `UUID(text)` are parameters; of the first only this is assumed, where stated, that ASCII bytes are read as their characters.
- `str()` of values, `str.lower()` and `sorted()` on the elements of a set are parameters; `sorted()` may raise, and where stated it rearranges. What `model_dump(mode="json")` gives is part of the value; that it is JSON data is assumed nowhere but stated where it matters (`Convertible`).
- Redis does not lose data and does not fail over; time in the lease model is the server's.

Contracts weaker than one might wish:

- Redis.RedisCache.WaitFor: asks for a positive interval; with 0 the loop ends only because real time passes. Its clock is the one of the server model, in whole units.
- RadarTask.Worker.RunTask: the lock survives in the store when the release request is lost; what then happens is the subject of OrphanExpires and AcquiredAfterExpiry. Settings and the body of the collection are parameters.
- LeaseProtocol.MutualExclusion: that runs leave before their lease expires is its premise; nothing in the code enforces it.
- Masking.MaskIsCleanExactly: keys of dictionaries are not masked by the code and are the subject of MaskedKeysExactly; an object of another kind is given by the values it holds, and the text that str() makes of it counts only under a secret key.
- CacheKey.KeySeparates: both keys are of one namespace, the one of the settings; two parameter maps whose digests begin with the same sixteen characters share a key, which no argument about the text can exclude.
- Numbers.ParseOfDecimal: `int()` is modelled on ASCII digits, signs, underscores and white space, without other Unicode digits and without the limit on the number of digits.
- Json.LoadsDump: floats are kept as their text and excluded from the round trip; strings are sequences of characters, so a lone surrogate escape is read as U+FFFD; the recursion limit is not modelled.
- PendingUpdates.UpRuns: the cast to integer is modelled for decimal text of any PostgreSQL version, without the hexadecimal, octal, binary and underscore forms of version 16; the conditions of WHERE are evaluated from left to right.
- OtherMigrations.ExpansionSucceeds: the two migrations between 6e7f8a9b0c1d and cfcc31a7815b change column types to text, for which the model has no operation; that they keep columns and constraints is a premise of HistoryAcceptsAmong there.
- Integrity.ApplyKeepsValid: validity covers NOT NULL, numeric precision and scale, unique keys, index targets and names; lengths of text columns and the kinds of other values are not checked.
- Lineage.TableNamesWithLineage: a table name is what the server stores, so names long enough for PostgreSQL to truncate the derived index name are not distinguished.

Not modelled:

- Primary keys and their indexes, foreign keys, sequences, partial and expression indexes; a unique constraint is the unique index behind it, so unique indexes that back no constraint cannot be told apart from constraints.
- Column attributes the migrations do not change (time zones, server-side defaults other than the value given to existing rows).
- PostgreSQL identifier truncation, locks, UNLOGGED tables, casts between text and numeric types, and transactions other than all-or-nothing.
- `RedisCache.client` (lazy connection, timeouts), the log messages, and the callers of `wait_for` and `build_cache_key` in the analysis service.
- `autenticar_usuario`, `autenticar_requisicao`, `validate_analyst_access`, `validate_http_bearer` and the authorisation helpers: database look-ups and single-branch checks that would add only easy members.
- FastAPI and MCP plumbing, middleware, metrics, ORM declarations, and the migrations that only create tables: no invariant beyond one branch.
- The collection service, the ingestion services and the analysis services: not part of this model.
