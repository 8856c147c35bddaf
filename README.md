# FileFly core, modelled in Dafny

FileFly is a self-hosted file server with a browser client. This project models the parts of it
that hold state or make decisions. The server parts are:

- the LevelDB user-account store (`UserAccountStore`). It covers account creation behind the
  username/password policy (`AccountPolicy`), deletion that protects the last root account,
  lookup by name and by user ID, user-ID generation, and the preference documents with their
  in-memory cache;
- the SQLite `users` table bootstrap and its row lookup (`SqliteAccounts`);
- the FIFO lock queue built next to the SQLite connection (`TxQueue`); the table code creates
  it but never takes the lock;
- the registry of user-preference scopes (`PreferenceScopes`);
- the self-signed certificate manager (`Ssl`). It covers the `.timestamp` file, the
  regeneration rule, the ordered writes of a regeneration and the choice of certificate files;
- the request logger's wrapping request-ID counter and status-code colour bands
  (`RequestLogger`).

The client parts are the event emitter (`ClientEvents`), the client error class with its
flattened cause trace (`ClientError`) and the `throttle` helper (`Timing`).

`Eav` holds the error-as-value shapes the server returns (`Option`, `Result`). `JsText` models
the JavaScript conversions the server relies on:

- `Number.prototype.toString(radix)`;
- `padStart`;
- the global `parseInt` with no radix, including white-space skipping, a sign, the `0x` prefix
  and `NaN`.

It proves that a rendered integer parses back to itself.

Each mutable object of the source is a class whose fields the methods update: the static
fields of `UserAccount`, `UserAccounts`, `UserPreferences` and `RequestLogger`, the instance
fields of `Sqlite3Queue`, `Events`, `FFClientError` and the `SSL` singleton, and the variables
of the `throttle` closure. Storage engines are maps.
Storage faults are fixed when a store is built: a read of a listed key or a write while a write
fault is set fails with that fault. Each operation's contract covers its error paths as well
as its success path. bcrypt, SHA-256, `uuid()`, the X.509 generator and the clock are inputs.

Some behaviours of the code are easy to misread:

- `delete` refuses whenever exactly one root account exists, whatever the target, even when
  the target is not that root.
- `setPreferenceEntry` updates the cache before it writes the document. A failed write
  leaves the cache ahead of storage.
- The SQLite lock queue has no timeout.
- `throttle` takes its lock before running the callback and schedules the unlock after it, so
  a callback that throws leaves the throttled function locked for good.
- The configuration schema lists `'self-signed-'` (with a trailing dash) as a source type.
  The certificate manager compares against `'self-signed'`. The model takes the source type
  as a free string and compares it as the certificate manager does.
- Right after a regeneration, with the one-day interval, a check made at that same instant
  keeps the certificate iff the lifetime is at least one day (`Ssl.FreshCertificateKept`).
  The periodic check one day later keeps it iff the lifetime exceeds one day
  (`Ssl.NextCheckKeepsCertificate`).

Both copies of the certificate manager (`server/src/api/ssl/ssl.ts` and the older
`server/src/lib/api/ssl/ssl.ts`) make the same decisions. They differ in logging and in where the crypto folder lies (three
or four directories above the module); the folder is a parameter here, so one `Ssl` module
models both. The table below cites the newer copy. In the older one the same
operations are `init` (lines 27-48), `generateSSLCert` (50-71), `getSSLCertKeyData` (73-91),
`shouldRegenerateCert` (95-108) and `setTimestamp` (120-124).

## Model

| member | source | states |
|---|---|---|
| AccountPolicy.CheckPolicy | server/src/db/userAccount.ts:126-135 | the result is the first failing rule in the source's order (name too short, too long, password too short, no digit, no upper case, no lower case, no non-word character); no result means every rule passes |
| UserAccountStore.Find | server/src/db/userAccount.ts:218 | `users.find` by user ID: what it finds is the first listed account carrying the ID; nothing is found iff no listed account carries it |
| UserAccountStore.CountRoots | server/src/db/userAccount.ts:84 | `users.filter(x => x.root).length`, as `open` and `delete` count roots: at most the listing's length, and zero iff no listed account is a root |
| UserAccountStore.UpdatedPrefs | server/src/db/userAccount.ts:291-292 | setting a key stores the value under it, `undefined` removes it, and every other key keeps its value |
| UserAccountStore.ListedRootCount | server/src/db/userAccount.ts:84 | filtering a complete listing by `root` counts exactly the root accounts of the store |
| UserAccountStore.FindInListing | server/src/db/userAccount.ts:213-223 | searching a complete listing finds an account iff some stored account carries the ID, and what it finds is that stored account |
| UserAccountStore.FreshIDKeepsUnique | server/src/db/userAccount.ts:137-148 | adding an account under a free name with an unused user ID keeps user IDs unique and adds exactly that ID |
| UserAccountStore.RootsAfterRemoval | server/src/db/userAccount.ts:181 | deleting one account removes at most one root |
| UserAccountStore.RemovalLeavesRoot | server/src/db/userAccount.ts:175-181 | with two or more roots, deleting any one account leaves a root |
| UserAccountStore.Store.constructor | server/src/db/userAccount.ts:47-51 | the store starts over the given sublevels with an empty preference cache |
| UserAccountStore.Store.Exists | server/src/db/userAccount.ts:255-263 | a name is free only when its read fails with LEVEL_NOT_FOUND; any other read fault counts as taken |
| UserAccountStore.Store.Get | server/src/db/userAccount.ts:196-206 | returns the stored entry with its username exactly when the read succeeds; every failure gives nothing |
| UserAccountStore.Store.ListAccountEntries | server/src/db/userAccount.ts:229-242 | succeeds iff every stored account is readable, and then lists every account once with its stored entry; otherwise fails with the fault of an unreadable account |
| UserAccountStore.Store.ListUsernames | server/src/db/userAccount.ts:248-250 | lists every stored username exactly once |
| UserAccountStore.Store.GetByID | server/src/db/userAccount.ts:213-223 | finds the stored account carrying the ID; gives nothing iff the listing fails or no account carries it |
| UserAccountStore.Store.IdInUse | server/src/db/userAccount.ts:348-350 | the collision test of ID generation: a listing fault is passed on; otherwise it answers whether some stored account carries the ID |
| UserAccountStore.Store.GenerateUserID | server/src/db/userAccount.ts:344-356 | returns `<digest>.<time>` for the first clock reading whose ID is unused, so the ID is fresh; a listing fault is passed on; only when every reading collides are the retries exhausted |
| UserAccountStore.Store.Create | server/src/db/userAccount.ts:117-157 | a taken name gives ERR_NAME_TAKEN even with checks skipped; otherwise the first policy failure is returned, never one when checks are skipped; then a listing fault is passed on as a storage error, every clock reading colliding exhausts the retries, and a write fault is returned as such; on success exactly one entry is added with the bcrypt hash, a fresh user ID, the root flag and no last login; success is guaranteed when nothing fails and some reading is free; user IDs stay unique; failures change nothing |
| UserAccountStore.Store.Delete | server/src/db/userAccount.ts:166-189 | an absent name gives ERR_USER_NOT_FOUND; a listing fault is passed on; exactly one root refuses with ERR_CANT_DEL_LAST_ADMIN; otherwise exactly that account is removed unless the write fails; a store with a root keeps a root |
| UserAccountStore.Store.Open | server/src/db/userAccount.ts:80-92 | with no root account it creates `admin`/`admin` as root with the checks skipped: it succeeds whenever nothing fails and some clock reading gives a free ID, a write fault is returned as such, every reading colliding exhausts the retries, and an existing `admin` fails with ERR_NAME_TAKEN; a failure changes no account; on success at least one root exists |
| UserAccountStore.Store.GetPreferences | server/src/db/userAccount.ts:310-340 | a cached document is returned without checking the account; otherwise an unknown user is refused; a missing document defaults to `{}`; whatever is returned is cached |
| UserAccountStore.Store.SetPreferenceEntry | server/src/db/userAccount.ts:282-302 | the updated document goes into the cache before the write; on success the cache and storage agree, a later read returns the cached document, and the key holds the value or is gone; a failed write leaves storage unchanged but the cache updated |
| SqliteAccounts.Convert | server/src/db/userAccounts.ts:145-146 | `created` becomes a date, a null `lastLogin` stays null and any other is converted, and the other columns are copied |
| SqliteAccounts.UsersTable.constructor | server/src/db/userAccounts.ts:35-51 | the table handle starts over the given rows and driver faults |
| SqliteAccounts.UsersTable.Prepare | server/src/db/userAccounts.ts:64-130 | the first failing setup statement's driver error is returned; with no root row the insert's driver fault, else a taken `admin` key's constraint error, else success with `admin` inserted as root under an `admin.`-prefixed uuid; with roots the select's driver fault, else an error iff there is no `admin` row; on success a root row exists |
| SqliteAccounts.UsersTable.Get | server/src/db/userAccounts.ts:136-153 | returns the converted row; a missing username is an error (the conversion throws), not an absent value |
| TxQueue.Sqlite3Queue.constructor | server/src/db/sqlite3TxQueue.ts:22-23 | a new queue is unlocked and empty |
| TxQueue.Sqlite3Queue.Holder | server/src/db/sqlite3TxQueue.ts:30-36 | a lock is held iff the queue is locked, and the holder is the most recent grant |
| TxQueue.Sqlite3Queue.Acquire | server/src/db/sqlite3TxQueue.ts:25-36 | the caller is appended; on an idle queue it is granted at once; on a busy one nothing else changes; grants stay in arrival order |
| TxQueue.Sqlite3Queue.Release | server/src/db/sqlite3TxQueue.ts:32-39 | only the holder's release moves on: the next queued caller is granted, or past the end the queue goes idle and empties; any other release does nothing |
| PreferenceScopes.Registry.constructor | server/src/db/userPreferences.ts:22 | no scope is registered at first |
| PreferenceScopes.Registry.GetScope | server/src/db/userPreferences.ts:28-39 | a registered scope is refused and nothing changes; a new one is appended and returned; scopes stay distinct |
| Ssl.ReadTimestamp | server/src/api/ssl/ssl.ts:139-147 | an unreadable file is `undefined`; otherwise the file's `parseInt`, NaN included |
| Ssl.ShouldRegenerate | server/src/api/ssl/ssl.ts:124-137 | never for a source other than `self-signed`; always when the timestamp is missing; never for NaN; otherwise iff the timestamp is less than the interval ahead of now |
| Ssl.ValidUntil | server/src/api/ssl/ssl.ts:149-153 | the recorded instant is `lifetimeDays` days of milliseconds after now |
| Ssl.AfterRegeneration | server/src/api/ssl/ssl.ts:61-98 | the folder after a regeneration: other files are untouched, a generation failure changes nothing, a new key is only ever written after the new certificate, and a new timestamp only after both |
| Ssl.TimestampRoundTrip | server/src/api/ssl/ssl.ts:139-153 | the timestamp `setTimestamp` writes reads back as the same instant |
| Ssl.CheckAfterRegeneration | server/src/api/ssl/ssl.ts:124-153 | a check `elapsed` ms after a regeneration asks for another iff less than one day of the lifetime remains |
| Ssl.FreshCertificateKept | server/src/api/ssl/ssl.ts:124-153 | a check at the instant of a regeneration keeps the certificate iff its lifetime is at least one day |
| Ssl.NextCheckKeepsCertificate | server/src/api/ssl/ssl.ts:30-56 | the periodic check one interval later keeps it iff the lifetime exceeds one day |
| Ssl.SslManager.constructor | server/src/api/ssl/ssl.ts:25-28 | the manager starts over the given crypto folder |
| Ssl.SslManager.ShouldRegenerateCert | server/src/api/ssl/ssl.ts:124-137 | against the folder's timestamp file: never for a source other than `self-signed`; always when the file is missing; with a number in the file, iff it is less than the interval ahead of now |
| Ssl.SslManager.SetTimestamp | server/src/api/ssl/ssl.ts:149-153 | writes and returns now plus the lifetime; the file then reads back as that instant; a failed write changes nothing |
| Ssl.SslManager.GenerateSslCert | server/src/api/ssl/ssl.ts:61-98 | writes certificate, then key, then timestamp; the first failure is returned and later writes are skipped, so the folder is the one `AfterRegeneration` describes; after a full success a check at that instant regenerates iff the lifetime is under a day |
| Ssl.SslManager.GetSslCertKeyData | server/src/api/ssl/ssl.ts:100-120 | an external source reads both certificate and key from the configured certificate path, so both are the same text; any other source reads `cert.pem` and `privatekey.pem`; an unreadable file is an error |
| Ssl.SslManager.Init | server/src/api/ssl/ssl.ts:30-59 | sets a one-day interval and a ten-day threshold; only a self-signed source over HTTPS whose check asks for it regenerates, and then the folder is what `AfterRegeneration` gives for every outcome, partial ones included; otherwise the folder is unchanged |
| RequestLogger.Logger.constructor | server/src/api/middleware/requestLogger.ts:16 | the counter starts at 0, below the wrap point |
| RequestLogger.Logger.GetRequestID | server/src/api/middleware/requestLogger.ts:16-22 | returns the counter as five lower-case hex digits and advances it modulo 0x100000, wrapping right after `fffff` |
| RequestLogger.RequestId | server/src/api/middleware/requestLogger.ts:19 | `toString(16).padStart(5, '0')` always gives at least five characters, all lower-case hex digits |
| RequestLogger.RequestIdShape | server/src/api/middleware/requestLogger.ts:19 | below the wrap point an id has exactly five lower-case hex digits that denote the counter |
| RequestLogger.WideIdAfterWrap | server/src/api/middleware/requestLogger.ts:19-20 | a counter past `fffff` would render with six or more digits, so the `fffff` test is the only wrap |
| RequestLogger.RequestIdInjective | server/src/api/middleware/requestLogger.ts:19 | different counters below the wrap point give different ids |
| RequestLogger.SuccessorWraps | server/src/api/middleware/requestLogger.ts:19-20 | the id is `fffff` iff the counter is 0xfffff, so a step is `+1 mod 0x100000` |
| RequestLogger.CounterAfterIsModular | server/src/api/middleware/requestLogger.ts:16-20 | after k calls the counter is the start plus k, modulo 0x100000 |
| RequestLogger.IdsDistinctWithinCycle | server/src/api/middleware/requestLogger.ts:16-20 | the ids of any 0x100000 consecutive calls are pairwise distinct |
| RequestLogger.StatusCodeColor | server/src/api/middleware/requestLogger.ts:24-29 | blue below 200, green for 2xx, cyan for 3xx, red for 4xx and 5xx, nothing from 600 |
| JsText.PadStart | server/src/api/middleware/requestLogger.ts:19 | pads on the left with the filler up to the width and keeps the text as the suffix; longer text is unchanged |
| JsText.NatToText | server/src/api/middleware/requestLogger.ts:19 | `toString(radix)` writes at least one character, and only lower-case hex digits |
| JsText.IntToText | server/src/api/ssl/ssl.ts:151 | `toString()` of an integer starts with a minus sign exactly when it is negative |
| JsText.NatToTextDenotes | server/src/api/middleware/requestLogger.ts:19 | `toString(radix)` writes at least one digit, only digits of the radix, and they denote the number |
| JsText.NatToTextFits | server/src/api/middleware/requestLogger.ts:19 | a number below radix^j renders in at most j digits |
| JsText.ParseIntRoundTrip | server/src/api/ssl/ssl.ts:142 | `parseInt` of an integer's decimal text gives back the integer, also when the text is followed by a character that is not a letter or digit |
| JsText.ParseInt | server/src/api/ssl/ssl.ts:142 | the global `parseInt` reads a number only from text holding a decimal digit; text without one is NaN |
| ClientEvents.Without | client/src/core/lib/Events.ts:27 | the filtered list lacks the callback and keeps every other callback the same number of times |
| ClientEvents.WithoutDistributes | client/src/core/lib/Events.ts:27 | filtering distributes over concatenation, so kept listeners stay in order |
| ClientEvents.WithoutAbsent | client/src/core/lib/Events.ts:25-29 | removing a callback that is not registered leaves the list unchanged |
| ClientEvents.Events.constructor | client/src/core/lib/Events.ts:9-11 | no event has listeners at first |
| ClientEvents.Events.Emit | client/src/core/lib/Events.ts:13-18 | calls exactly the listeners of the name, once each, in registration order; none for an unknown name |
| ClientEvents.Events.On | client/src/core/lib/Events.ts:20-23 | appends the callback under the name, even when already present; other names are untouched |
| ClientEvents.Events.Off | client/src/core/lib/Events.ts:25-29 | removes every occurrence of the callback under the name and nothing else; other names are untouched |
| ClientError.FFClientError.constructor | client/src/core/lib/FileflyClientError.ts:20-35 | sets code, message and metadata (default `{}`); a plain cause becomes the whole trace; a client-error cause is followed by its own trace, which is then emptied while its code, message and metadata stay as they were, so the trace stays flat |
| Timing.Throttled.constructor | client/src/core/lib/Timing.ts:11-12 | a new throttled function is unlocked, with no timer pending |
| Timing.Throttled.Play | client/src/core/lib/Timing.ts:13-19 | runs the callback iff unlocked and leaves it locked; the unlock timer is scheduled only if the callback returns, so a throwing callback locks the function for good; the callback never runs more than once per fired timer plus one |
| Timing.Throttled.TimerFires | client/src/core/lib/Timing.ts:17 | the unlock timer unlocks; afterwards callback runs equal fired timers |

## Left out

- Opening and closing the databases is not modelled: LevelDB `open`/`defer`/`close`, SQLite `open`, `close` and `mkdir`. The store is built over given maps. `server/src/lib/db/userAccounts.ts` and `server/src/db/sqlite3.ts` are not part of this model.
- Validation by zod is not modelled: ERR_BAD_ENTRY in `create`, the `ZString.parse` in `delete` and the `TPreferenceValue.parse` in `setPreferenceEntry`. The model's types admit only well-typed values.
- UserAccountStore.Store.ListAccountEntries: LevelDB returns keys in sorted order. The model lists the accounts in an unspecified order and states only that the listing holds each account once.
- UserAccountStore.Store.ListUsernames: as above, the order of the names is not stated.
- UserAccountStore.Store.GenerateUserID: the source retries without bound. The model retries once per supplied clock reading and reports IdRetriesExhausted when they run out.
- UserAccountStore.Store.GetPreferences: the source caches and returns the same document object, and `setPreferenceEntry` mutates it in place. The model works on values, so aliasing of a document handed to a caller is not captured.
- Concurrency: every asynchronous operation runs atomically here. Interleavings of concurrent `create`/`delete` calls between their checks and their writes are not modelled.
- Lengths: policy lengths count UTF-16 code units in the source and characters here.
- JavaScript numbers are unbounded integers here. Floating point, fractional lifetimes and precision beyond 2^53 are not modelled.
- The x509 generator, bcrypt, SHA-256, `uuid()` and `Date.now()` are inputs. `new Date(text)` is kept as the text it was built from.
- bcrypt's default-password comparison in SQLite `prepare` only logs. The model keeps only the throw on a missing `admin` row.
- Ssl.SslManager.Init: the `setInterval` repetition is not modelled; the model runs the first check only. `certRegenThreshold` is set but never read in the source. Read faults other than a missing file are not modelled.
- The throttle's timer delay and real time are not modelled; a timer expiry is an explicit event.
- JsText.ParseIntRoundTrip: a suffix that starts with a letter or digit can continue the number
  (`"0" + "x1"` reads as 1), so the round trip is stated only for an empty suffix or one that
  starts with another character. The timestamp file holds the number alone.
- Events: listener arguments and effects, listeners that change the registry while `emit` runs, and names that collide with `Object.prototype` members are not modelled.
- ClientError.FFClientError.constructor: `super(message)`, the stack trace and JavaScript truthiness of `meta` and `cause` are not modelled.
- `UserPreferences.set` and `get` (server/src/db/userPreferences.ts:41-46) have empty bodies, so there is nothing to model.
- Logging, chalk colouring and the request log line are not modelled. Colours are tags.
