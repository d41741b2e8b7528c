# Whitelist sync service, modelled in Dafny

The service lets a player register an account and claim one in-game nick.
Each change to the whitelist goes into a `Task` outbox as an
encrypted `("whitelist", "add" | "remove", data)` row. A game-server plugin
polls that outbox and acknowledges each task by id. An administrator can
ban or unban an account and can force or clear its nick. A
known-proxy set, refreshed from public proxy feeds, and a lookup service
keep VPN users out of registration and out of self-service whitelisting.

The model covers the following modules:

- `Js`: the JavaScript runtime behaviour the code relies on. This means
  truthiness of strings, `trim`, `split`/`join`, first-occurrence `replace`,
  `parseInt`, UTF-8 encoding as `Buffer.from(string)` does it, the WHATWG
  decoding that `Buffer.prototype.toString()` does, and the UTF-16
  `length`.
- `Encryption` (utils/encryption.js): the `iv:ciphertext` hex envelope
  around AES-256-CBC, the key-length check `createCipheriv` makes, and
  `hashIp`.
- `Proxy` (utils/proxy.js): `cleanProxyLine`.
- `ProxyService` (services/proxyService.js): the known-proxy set, a
  `class` whose `UpdateProxyList` method grows it from the feed
  responses.
- `Security` (middleware/security.js): `antiVpnMiddleware`, as a method
  that sets `request.isvpn`, and `authenticatePlugin`.
- `Db` (utils/db.js): the `User` table and the `Task` outbox, as a `Store`
  class whose methods are the write helpers. The read helpers are
  functions over the rows.
- `Http`: the shape of a reply (a body, or a status with an error) and of
  a pre-handler hook.
- `Api` (routes/api.js): register, login, self-set whitelist, admin check
  and admin action, each guard in the source's order. It also has the two
  routes that run `antiVpnMiddleware` first.
- `PluginApi` (routes/mpapi.js): the plugin's poll and complete routes,
  behind `authenticatePlugin`.

Randomness, the clock and the network are parameters:

- the eight password bytes, the bcrypt salt, the IVs and the user id;
- `now`;
- the feed responses, one `Option<string>` per source with `None` for a
  failed fetch;
- the ip-api lookup answer, `None` when the request failed.

AES, SHA-256 and bcrypt are function-valued fields of datatypes. The model
assumes only two things about them, each stated as a hypothesis where it
is used:

- `CipherRoundTrips`: decryption undoes encryption under the same key and
  IV.
- `BcryptSound`: a password matches its own hash.

Other behaviours the model keeps as the code has them:

- Strict equality between two unset values passes, so `/admin/check` and
  `/admin/action` accept a request without a secret when `DB_SECRET` is
  unset.
- An empty nick passes the self-service guard. It is enqueued as an "add"
  task whose data is empty, and the nick slot stays open.
- `ban` writes `isBanned = 1` before it encrypts the old nick. When encrypt
  throws, the ban is kept and no remove task is written.
- The middleware normalises the address and checks it against a set of
  `host:port` strings. A bare IPv4 address, or an IPv4-mapped IPv6
  address, therefore never matches (`Security.MappedIpv4NeverKnown`).
- Acknowledging an id that has no task still answers `success: true`.
  Deleting no row does not throw, so the route's `success: false` branch
  is never taken for an id that has no task.
- Two encryptions of the same nick differ, because each draws a fresh IV.
  So `decrypt(encrypt(x)) == x` holds (for texts without lone surrogates), but `encrypt(decrypt(y)) == y` does
  not (`Encryption.EncryptIvVisible`).

## Model

| member | source | states |
|---|---|---|
| Js.Trim | utils/proxy.js:3 | the result occurs in the input, everything dropped before and after it is whitespace, and neither of its ends is whitespace |
| Js.TrimStart | middleware/security.js:10 | drops exactly the leading whitespace: the result is a suffix and its first character is not whitespace |
| Js.TrimEnd | middleware/security.js:10 | drops exactly the trailing whitespace: the result is a prefix and its last character is not whitespace |
| Js.TrimUnchanged | utils/proxy.js:3 | a string whose ends are not whitespace is its own trim |
| Js.FirstIndex | utils/encryption.js:18 | the first position of the character, or the length when it is absent |
| Js.Split | services/proxyService.js:25 | split never yields an empty list, no piece holds the separator, and joining the pieces gives the input back |
| Js.SplitJoin | utils/encryption.js:18-20 | splitting a join of separator-free pieces gives the pieces back |
| Js.SplitHeadRest | utils/encryption.js:18-20 | `shift()` after a split is the text before the first separator, and `join` of the rest is the text after it |
| Js.IndexOf | middleware/security.js:10 | the first position where the pattern occurs, none when it does not occur |
| Js.ReplaceFirstSpec | middleware/security.js:10 | `replace` with a string pattern replaces only the first occurrence, and leaves a string without one unchanged |
| Js.DigitPrefix | routes/mpapi.js:30 | the longest run of digits at the front |
| Js.Decimal | routes/mpapi.js:30 | a task id's decimal rendering is a non-empty digit string, with a leading '0' only for 0 |
| Js.ParseIntDecimal | routes/mpapi.js:30 | `parseInt` of a task id's decimal rendering is that id |
| Js.ParseIntNaN | routes/mpapi.js:30-31 | a query that does not start (after spaces and a sign) with a digit is NaN |
| Js.DecimalValue | routes/mpapi.js:30 | a task id's decimal rendering is all digits and reads back as that id |
| Js.ParseUnsignedDecimal | routes/mpapi.js:30 | the unsigned digit reader takes a decimal rendering back to its number |
| Js.ParseUnsignedNaN | routes/mpapi.js:30-31 | with no digit in front, the digit reader yields NaN |
| Js.Utf8 | utils/encryption.js:10-11 | UTF-8 is at least one byte per character, and exactly one for ASCII |
| Js.Utf8Char | utils/encryption.js:11 | one to four bytes per character, one exactly below U+0080 |
| Js.AcceptedTail | utils/encryption.js:24 | the decoder accepts only continuation bytes, and the first of them only in its allowed range |
| Js.DecodeFirst | utils/encryption.js:24 | each decoding step consumes between one byte and what is left |
| Js.Utf8CharDecodes | utils/encryption.js:11-24 | the bytes of one character decode to that character and consume exactly those bytes |
| Js.Utf8TwoDecodes | utils/encryption.js:11-24 | a two-byte sequence decodes to its character and consumes two bytes |
| Js.Utf8ThreeDecodes | utils/encryption.js:11-24 | a three-byte sequence decodes to its character and consumes three bytes |
| Js.Utf8FourDecodes | utils/encryption.js:11-24 | a four-byte sequence decodes to its character and consumes four bytes |
| Js.Utf8RoundTrip | utils/encryption.js:11-24 | `Buffer.from(s).toString()` is `s` for every string of Unicode scalar values |
| Js.Utf16Length | routes/api.js:39 | `length` is between the number of code points and twice that |
| Js.Utf16Append | routes/api.js:39 | `length` adds up over concatenation, so it is the sum over the characters |
| Js.Utf16Planes | routes/api.js:39 | a string wholly inside the Basic Multilingual Plane has one unit per character, one wholly outside it two; so two emoji outside it already meet the 3-unit minimum of the username check, while two letters do not |
| Encryption.HexValue | utils/encryption.js:19-20 | a hex digit's value is below 16 |
| Encryption.Hex | utils/encryption.js:13 | `toString('hex')` is two characters per byte |
| Encryption.HexLowerDigits | utils/encryption.js:13 | every character of the hex rendering is a lower-case hex digit |
| Encryption.HexDigitValue | utils/encryption.js:13-20 | each lower-case hex digit reads back as its value |
| Encryption.HexDecode | utils/encryption.js:19-20 | `Buffer.from(s, 'hex')` yields at most one byte per two characters |
| Encryption.HexRoundTrip | utils/encryption.js:13-20 | hex decoding undoes hex encoding |
| Encryption.HexHasNoColon | utils/encryption.js:13-18 | a hex string holds no ':', so the envelope's first ':' is its separator |
| Encryption.EncryptionKeyAsWritten | utils/encryption.js:4 | DB_SECRET when it is set, otherwise the fallback literal, which is 40 bytes long |
| Encryption.EncryptionKey | utils/encryption.js:4 | DB_SECRET when it is set, otherwise a fallback of exactly 32 bytes |
| Encryption.Encrypt | utils/encryption.js:7-14 | a falsy text comes back as is; otherwise it succeeds exactly when the key is 32 UTF-8 bytes, and its only error is the key length |
| Encryption.EncryptFramesIv | utils/encryption.js:9-13 | a successful envelope is non-empty, its first ':' sits right after the 32 hex digits of the IV, the hex before it reads back as the IV and the hex after it as the ciphertext of the text's UTF-8 under the key's UTF-8 |
| Encryption.EnvelopeColon | utils/encryption.js:13-18 | the first ':' of an envelope sits right after the IV's hex |
| Encryption.Decrypt | utils/encryption.js:16-25 | a falsy text comes back as is; a successful decrypt of a non-empty text yields a string and needs a 32-byte key |
| Encryption.DecryptReadsEnvelope | utils/encryption.js:18-24 | decrypt reads the IV from before the first ':' and the ciphertext from after it |
| Encryption.EnvelopeRoundTrip | utils/encryption.js:13-20 | splitting an envelope gives back the IV and the ciphertext that built it |
| Encryption.DecryptEncrypt | utils/encryption.js:7-25 | with a 32-byte key, decrypt(encrypt(x)) is x for every x without lone surrogates, null and "" included |
| Encryption.HashIpShape | utils/encryption.js:27-29 | the IP hash is two lower-case hex digits per byte of the digest |
| Encryption.EncryptIvVisible | utils/encryption.js:9-13 | the same text under two different IVs gives two different envelopes |
| Encryption.FallbackKeyRejected | utils/encryption.js:4-10 | with DB_SECRET unset, every non-empty encrypt throws Invalid key length |
| Encryption.CorrectedFallbackRoundTrips | utils/encryption.js:4-25 | with DB_SECRET unset, the corrected key encrypts every text and decrypts it back |
| Proxy.StripScheme | utils/proxy.js:5-8 | a scheme matched ignoring case is cut off the front, exactly as many characters as the scheme has; otherwise the string is unchanged |
| Proxy.StripSchemeChanges | utils/proxy.js:5-8 | the string changes exactly when it starts with the non-empty scheme, ignoring case |
| Proxy.StripPresent | utils/proxy.js:5-8 | a scheme that is there is removed, leaving the rest |
| Proxy.StripDiffers | utils/proxy.js:5-8 | a string that differs from the scheme at a place where it has no capital keeps its scheme test false and is unchanged |
| Proxy.SchemesLower | utils/proxy.js:5-8 | none of the four schemes has a capital letter |
| Proxy.StripSchemesSuffix | utils/proxy.js:5-8 | the four removals leave a suffix of the trimmed line |
| Proxy.Socks4StripsToEmpty | utils/proxy.js:5-8 | "socks4://" alone is stripped to nothing |
| Proxy.Socks5StripsToEmpty | utils/proxy.js:5-8 | "socks5://" alone is stripped to nothing |
| Proxy.HttpStripsToEmpty | utils/proxy.js:5-8 | "http://" alone is stripped to nothing |
| Proxy.HttpsStripsToEmpty | utils/proxy.js:5-8 | "https://" alone is stripped to nothing |
| Proxy.CleanProxyLine | utils/proxy.js:1-14 | null for a falsy line; otherwise a result exactly when a ':' is left after the schemes are removed, and that result is a suffix of the trimmed line |
| Proxy.NoSchemeKept | utils/proxy.js:3-11 | a line with a ':' and no scheme comes back as its trim |
| Proxy.BareSchemeDropped | utils/proxy.js:5-13 | a line that is only a scheme is dropped, because no ':' is left |
| Proxy.StrippedInOrder | utils/proxy.js:5-6 | "socks4://socks5://h:1" loses both schemes, in the order the source applies them |
| Proxy.StrippedOnce | utils/proxy.js:5-6 | in "socks5://socks4://h:1" the inner "socks4://" stays, because each scheme is tested once |
| Proxy.CleanTrimmed | utils/proxy.js:3-13 | for an already trimmed line, the result is the scheme-stripped line when it holds a ':' |
| Proxy.CleanUntrimmed | utils/proxy.js:2-13 | cleaning a line is cleaning its trim, so surrounding whitespace and a trailing "\r" never change the entry |
| ProxyService.GatherFrom | services/proxyService.js:26-30 | an entry is gathered exactly when some element contributes it |
| ProxyService.GatherAppend | services/proxyService.js:22-35 | gathering over two lists in turn is the union of both |
| ProxyService.GatherNested | services/proxyService.js:22-35 | an entry is gathered over two nested loops exactly when some inner element contributes it |
| ProxyService.LineEntriesFrom | services/proxyService.js:27-29 | a line contributes an entry exactly when it cleans to it |
| ProxyService.HarvestOrigin | services/proxyService.js:22-35 | an entry is in the harvest exactly when some line of some response that arrived cleans to it |
| ProxyService.FailedSourceSkipped | services/proxyService.js:22-34 | a failed source is skipped, and the sources after it still count |
| ProxyService.HarvestHasPorts | services/proxyService.js:26-30 | every harvested entry contains ':' |
| ProxyService.UpdatesCompose | services/proxyService.js:19-40 | two refreshes in a row add what one refresh over both sets of sources adds |
| ProxyService.UpdateIdempotent | services/proxyService.js:19-40 | the same answers twice add nothing more than once |
| ProxyService.KnownProxies.constructor | services/proxyService.js:4 | the set starts empty |
| ProxyService.KnownProxies.UpdateProxyList | services/proxyService.js:19-40 | the new set is the old set plus the harvest of the responses, so nothing is removed and every entry keeps a ':' |
| ProxyService.KnownProxies.AddLines | services/proxyService.js:25-31 | adds exactly the cleaned lines of one response |
| Security.NormaliseUnmapped | middleware/security.js:10 | an address without "::ffff:" is only trimmed |
| Security.NormaliseMapped | middleware/security.js:10 | "::ffff:" followed by a trimmed IPv4 address normalises to that address |
| Security.Request.constructor | middleware/security.js:8 | a request starts unflagged |
| Security.AntiVpnMiddleware | middleware/security.js:7-25 | it halts with 403 exactly when the normalised address is a known proxy, and then makes no lookup; otherwise it looks up the normalised address and flags the request exactly when the lookup succeeded and reports a proxy or a host; a failed lookup leaves it unflagged |
| Security.BareAddressNeverKnown | middleware/security.js:12 | an address without ':' is never in the known set |
| Security.MappedIpv4NeverKnown | middleware/security.js:10-12 | an IPv4-mapped address is never in the known set |
| Security.AuthenticatePlugin | middleware/security.js:28-33 | continues exactly when the header is non-empty and equals MP_API_KEY; otherwise 403 Invalid API Key |
| Security.UnsetKeyLocksOut | middleware/security.js:4-32 | with MP_API_KEY unset, every plugin request is refused |
| Db.Patched | utils/db.js:44-54 | a patch writes only the fields it names, and updatedAt |
| Db.UpdateRows | utils/db.js:44-54 | every row of that name is patched, and no other row |
| Db.FirstWith | utils/db.js:28-34 | `.get()` returns the first matching row |
| Db.FindUserByUsername | utils/db.js:28-30 | a row of that name, or none when no row has it; an absent name matches nothing |
| Db.FindUserByIp | utils/db.js:32-34 | a row with that IP hash, or none when no row has it |
| Db.FindAppended | utils/db.js:28-42 | a user created under a new name is found by that name |
| Db.FindAfterUpdate | utils/db.js:28-54 | after an update the same user is found, patched |
| Db.FirstWithIs | utils/db.js:28-34 | an index whose row matches and before which no row matches is what the lookup returns |
| Db.InsertKeepsOrder | utils/db.js:77-79 | inserting into a newest-first list keeps it newest first, adds exactly that task, and puts it first when it is the newest |
| Db.AllTasksSorted | utils/db.js:77-79 | `getAllTasks` is newest first and holds every task exactly once |
| Db.AllTasksMembers | utils/db.js:77-79 | a task is in `getAllTasks` exactly when it is stored |
| Db.GetRecentTasks | utils/db.js:81-85 | the newest `limit` tasks (100 by default, all for a negative limit), newest first |
| Db.BannedCountBounds | utils/db.js:60-64 | the banned count is at most the number of users, zero exactly when none is banned, all exactly when all are |
| Db.BanCounts | utils/db.js:60-64 | banning an unbanned account of a unique name raises the banned count by one |
| Db.UnnamedUntouched | utils/db.js:44-54 | an update of a name that has no row changes nothing |
| Db.WithoutId | utils/db.js:87-89 | the tasks left are exactly those with another id |
| Db.WithoutIdAscending | utils/db.js:87-89 | deleting keeps the ids in ascending order |
| Db.DeleteAbsent | utils/db.js:87-89 | deleting an id no task has changes nothing |
| Db.DeleteIdempotent | utils/db.js:87-89 | deleting the same id twice is deleting it once |
| Db.DeleteOne | utils/db.js:87-89 | with distinct ids, deleting a present id removes exactly one task |
| Db.Store.constructor | utils/db.js:15-23 | both tables start empty and the first task id is 1 |
| Db.Store.CreateUser | utils/db.js:36-42 | appends one user with no nick, not banned; tasks unchanged |
| Db.Store.UpdateUser | utils/db.js:44-54 | patches the rows of that name when the patch names a field; tasks unchanged |
| Db.Store.CreateTask | utils/db.js:71-75 | appends one task with the next id, returns that id, advances the counter; ids stay ascending |
| Db.Store.DeleteTask | utils/db.js:87-89 | leaves exactly the tasks with another id; users unchanged |
| Api.Register | routes/api.js:28-71 | 403 when flagged, 400 for a missing or short name, 429 when the address's hash has an account, 409 when the name is taken; otherwise appends exactly one user holding the bcrypt hash of the returned 16-hex-digit password; no two accounts share a name or an IP hash |
| Api.Authenticate | routes/api.js:77-84 | succeeds exactly when the named user exists, the password matches its hash and the account is not banned; otherwise an unknown name gives UnknownUser, a found user without a password NoPassword (bcrypt.compare rejects), a password that does not match WrongPassword whatever the ban flag, and a matching password on a banned account Banned |
| Api.AuthFailure | routes/api.js:78-92 | 401 Invalid credentials for an unknown user or a wrong password, 403 Access suspended exactly for a ban, and the route's own 500 when the password is missing and bcrypt throws |
| Api.Login | routes/api.js:74-94 | success exactly when the credentials check, carrying that user's name and stored nick; an unknown user is 401; every failure is the credential check's failure reply, with "Login failed" as the 500 |
| Api.WrongPasswordBeforeBan | routes/api.js:78-84 | a wrong password is 401 whether or not the account is banned |
| Api.RegisteredCanLogIn | routes/api.js:56-90 | the new account logs in with the password register returned and has no nick |
| Api.BannedLoginSuspended | routes/api.js:82-84 | after a ban the right password gets 403 Access suspended |
| Api.SetWhitelist | routes/api.js:101-131 | 403 when flagged; the credential failures; 403 when a nick is set; 500 with nothing written when encrypt throws; otherwise exactly one "add" task holding encrypt(nick) and the nick written |
| Api.WhitelistSucceeds | routes/api.js:106-128 | with the credentials checked, no nick set and encrypt succeeding, the route's outcome is the one "add" task and the nick written |
| Api.FallbackKeyBlocksWhitelist | routes/api.js:117-128 | with DB_SECRET unset and the 40-byte fallback loaded, a self-set of a non-empty nick that passes every other guard is answered 500 |
| Api.NickSetOnce | routes/api.js:117-124 | once a non-empty nick is set, the same credentials find it set |
| Api.EmptyNickLeavesSlotOpen | routes/api.js:117-124 | an empty nick is enqueued unencrypted and leaves the slot open |
| Api.AdminCheck | routes/api.js:134-140 | success exactly when the secret equals DB_SECRET, otherwise 401 |
| Api.AdminAction | routes/api.js:142-196 | 401, 404 and 400 change nothing; ban, unban, set_whitelist and clear_whitelist write exactly what their outcome states |
| Api.EnqueueRemoval | routes/api.js:157-159 | one remove task holding the encrypted old nick when there is a nick; fails only when encrypt throws, with nothing written |
| Api.Ban | routes/api.js:155-161 | isBanned 1 is written, the nick is kept, and one remove task is added when there is a nick; an encrypt failure leaves the ban without the task |
| Api.ForceWhitelist | routes/api.js:168-178 | a remove task for the old nick, then an add task for the new value, then the nick written; the writes made before an encrypt failure stay |
| Api.ClearWhitelist | routes/api.js:180-190 | for a user with a nick, one remove task and a null nick; otherwise nothing changes |
| Api.BanKeepsNick | routes/api.js:155-160 | the banned user's row still holds its nick |
| Api.RegisterRoute | routes/api.js:23-33 | a known-proxy address gets the middleware's 403 and a lookup-flagged one the handler's 403, both with no account created; uniqueness of accounts kept |
| Api.SetWhitelistRoute | routes/api.js:96-105 | a known-proxy or flagged request changes nothing; a success adds exactly one task |
| PluginApi.DecryptTasks | routes/mpapi.js:14-19 | succeeds exactly when every payload decrypts, and then is each task with its payload decrypted, in order |
| PluginApi.DecryptTasksHas | routes/mpapi.js:14-19 | every task of a list that decrypts is in the result with its own payload decrypted |
| PluginApi.Poll | routes/mpapi.js:9-27 | 403 exactly when the hook refuses; otherwise `verify` is VERIFICATION_KEY, and the answer is every task newest first with its payload decrypted, or 500 DB Error |
| PluginApi.PollFindsTask | routes/mpapi.js:9-21 | with the right key and every payload decrypting, each stored task is handed out, decrypted |
| PluginApi.PollDeliversNick | routes/mpapi.js:13-21 | a nick enqueued encrypted comes out of the poll as that nick |
| PluginApi.Complete | routes/mpapi.js:29-47 | the hook; 400 Invalid ID when the query is NaN; otherwise the tasks with that id are deleted and the answer is success, found or not |
| PluginApi.CompleteDeletesPolled | routes/mpapi.js:30-39 | the id a poll hands out parses back to itself, and completing it removes that task and no other |

## Left out

- `/admin/stats`, `countUsers` and `getAllUsers` serve the dashboard only.
- `CountTasks` is `|tasks|`. It has no contract of its own and is used in
  `PluginApi.CompleteDeletesPolled`.
- Request bodies whose fields are not strings (numbers, objects) are not
  modelled. Every field is an optional string.
- The human-readable `message` strings of success replies are not modelled.
- Register's 500 path is not modelled: nothing in the model of
  `findUserByIp`, `findUserByUsername`, bcrypt or `createUser` throws.
- Api.SetWhitelist, Api.ForceWhitelist: a request without a nick binds
  `undefined`. This happens in `updateUser` at routes/api.js:124, and in
  the admin `set_whitelist` without a `value` at routes/api.js:168-173,
  through both `createTask(..., encrypt(undefined))` and
  `updateUser(target, { whitelistedNick: undefined })`. The model takes
  each such write to succeed and store NULL. Whether the SQLite driver
  rejects `undefined`, and so throws after an earlier write, depends on the
  driver, which is not part of this model.
- Db.GetAllTasks: `ORDER BY createdAt DESC` leaves the order of tasks with
  the same `createdAt` open. The model picks one: a later insert comes
  before an earlier one. PluginApi.Poll states its body position by
  position, so for tied tasks (the remove and add tasks of
  `set_whitelist`, written with the same `now`) it holds for that choice
  only. Db.AllTasksSorted, Db.AllTasksMembers, PluginApi.PollFindsTask and
  PluginApi.PollDeliversNick do not depend on it.
- PluginApi.Complete: `deleteTask` is taken never to throw. A database
  error (a locked or read-only file) would send the source's `success:
  false, error: "Task not found"` branch at routes/mpapi.js:40-45, and
  the model has no such error.
- Db.Store.CreateTask: the id is a counter that starts at 1 and never
  reuses an id. The table's autoincrement semantics come from
  database/schema.sql, which is not part of this model.
- Js.ParseInt: digits are read into an unbounded integer. JavaScript's
  double precision above 2^53 is not modelled.
- Timeouts, concurrency between requests and `setInterval` are not
  modelled. The feed fetches and the ip-api call are inputs.
- Js.Utf8RoundTrip: a Dafny `char` is a Unicode scalar value, so a
  JavaScript string holding a lone surrogate (a nick sent as "\ud800")
  cannot be represented. `Buffer.from` encodes a lone surrogate as
  EF BF BD, so for such a string the source's round trip gives U+FFFD in
  its place. The round trip is proved only for strings without lone
  surrogates.
- Encryption.DecryptEncrypt: for the same reason, decrypt(encrypt(x)) == x
  is proved only for texts without lone surrogates. The source returns
  U+FFFD in place of each lone surrogate.
- Encryption.HashIpShape: the digest is whatever the SHA-256 parameter
  returns. Its 32-byte length is not modelled, so the 64-digit length of
  the hash is not stated.
- Configuration bootstrap (utils/config.js, index.js) and the frontend are
  not part of this model.
- The internals of AES-256-CBC, SHA-256 and bcrypt are not modelled. Each
  is a function-valued parameter.
- Decryption with a wrong key or a corrupted envelope is an opaque
  success or failure of the cipher. Its padding checks are not modelled.

## Findings

| source | as written | input that shows it | evidently intended | confidence | as-written member | corrected member |
|---|---|---|---|---|---|---|
| utils/encryption.js:4 | the fallback key literal is 40 bytes long, but `createCipheriv('aes-256-cbc', …)` demands a 32-byte key, so every `encrypt` of a non-empty text throws while DB_SECRET is unset | DB_SECRET unset, `POST /user/whitelist` with nick "Steve" | a 32-byte fallback key, so that the outbox works without DB_SECRET | high; not executed | Encryption.FallbackKeyRejected | Encryption.CorrectedFallbackRoundTrips |

The handlers take ENCRYPTION_KEY as the `key` field of `Api.Env` and
`PluginApi.PluginEnv`, whatever it was loaded as. With the key the source
loads, `Api.FallbackKeyBlocksWhitelist` shows the consequence at the
route: the self-service whitelist answers 500 to every non-empty nick
while DB_SECRET is unset. With the corrected `Encryption.EncryptionKey`,
`Encryption.CorrectedFallbackRoundTrips` shows the outbox working. A related problem sits in
the configuration: utils/config.js:27 generates a DB_SECRET of 16
characters, which is not a 32-byte key either. The model takes DB_SECRET
as an input, so it does not fix that value.
