# CookieClicker core in Dafny

A model of the server core of CookieClicker, a Discord bot whose cookies
count clicks. It covers four parts:

- **The write-back click cache** (`CookieTracker`, `CachedCookie`, `Cookie`).
  Clicks go to an in-memory map of cache entries. A cache miss loads the row
  from the cookies table. A periodic flush removes every entry untouched for
  more than five seconds. It writes saved entries with one bulk UPDATE and new
  ones with one bulk INSERT.
- **Request signature checks.** There are two of them:
  - the HTTP responder `DiscordHeaderVerifier`;
  - the GenHTTP authenticator `DiscordHeaderAuthentication`.

  Both decode a Base 16 public key and a Base 16 signature, then check the
  signature over the UTF-8 timestamp followed by the request body. The
  responder first validates the three headers and reads exactly
  Content-Length body bytes.
- **The static router.** Embedded resources `CookieClicker.a.b.ext` are served
  at `/cookie_clicker/a/b.ext`, next to the API route `/cookie_clicker_dev/api`.
- **Slash-command dispatch.** The command table is built from the commands
  Discord returns after registration. An interaction is looked up by
  "command" or "command subcommand".

Modules, one file each:

| file | module | what it holds |
|---|---|---|
| wrappers.dfy | Wrappers | `Option`, `Optional` (defined/undefined), `Result`, `byte` |
| dictionary.dfy | Dictionary | `Dictionary.Add` (throws on a present key) and a sequence of Adds |
| cookies.dfy | Cookies | `Cookie`, `CachedCookie`, expiry and clicking |
| cookie_store.dfy | CookieStore | the cookies table and the bulk UPDATE / INSERT statements |
| cookie_tracker.dfy | CookieTracker | CreateCookie, Click, one flush tick, the cache/store invariant |
| hex.dfy | Hex | `FromHex`, `HexCharToByte` and a Base 16 encoder as their inverse |
| utf8.dfy | Utf8 | `Encoding.UTF8.GetBytes` |
| utf16.dfy | Utf16 | the UTF-16 code units a .NET `string` holds, and its `Length` |
| int_parse.dfy | IntParse | `int.TryParse` as applied to Content-Length |
| signatures.dfy | Signatures | header names, key and signature buffers, the Ed25519 boundary |
| header_verifier.dfy | HeaderVerifier | `DiscordHeaderVerifier.RespondAsync` |
| header_authentication.dfy | HeaderAuthentication | `DiscordHeaderAuthentication.Authenticate` |
| router.dfy | Router | resource name to URL, the route table, `RespondAsync` |
| slash_commands.dfy | SlashCommands | `GetCommandName`, `RegisterCommands`, `ExecuteCommand` |

Modelling choices:

- **Time.** Time is an explicit `now` in .NET ticks (100 ns) wherever the
  source reads `DateTime.UtcNow`. One flush tick reads one instant.
- **Cache and store.** The cache is a map from id to entry. The store is a map
  from id to count. The order in which the flush loop enumerates the cache is
  a parameter: any order that lists each key once.
- **Thrown exceptions.** An exception becomes a `Failure`, or a `Throws`
  outcome, carrying what was thrown.
- **A failing INSERT.** It leaves the baking loop, because the loop has
  `try/finally` and no `catch`. The tick result records it as `faulted`.
- **Strings and lengths.** A Dafny `string` is a sequence of Unicode scalar
  values. A .NET `string`, span and `Length` count UTF-16 code units, where a
  value above U+FFFF takes two. `Utf16.Units` gives a string's code units and
  `Utf16.Length` its .NET length. The Base 16 decoder works on code units, and
  the 74-character name buffer is counted in code units.
- **Ed25519.** The signature check is an uninterpreted function parameter
  `verify(signature, message, publicKey)`.

Two behaviours of the flush loop deserve stating, because a reader might
expect otherwise:

- **The quiescence test is strict.** `Expired` compares the time since the
  last touch with `>`, so an entry is flushed only when more than five seconds
  have passed, not at five seconds exactly (`src/Entities/CachedCookie.cs:10`).
- **No retry after a failed write.** The loop removes every expired entry from
  the cache before it writes either batch, and its `try/finally` has no
  `catch`, so a throwing statement ends the tick with those entries gone and
  nothing put back (`src/CookieTracker.cs:113-166`).
  `CookieTracker.FlushTickKeepsHotEntries` states the removal for every tick,
  faulted or not. `CookieTracker.FlushTickWritesQuiescent` shows that no
  statement fails from a state satisfying `Valid`.
- **Member names differ.** `CookieTracker.cs` calls `CanSave` and `Bake`,
  while `CachedCookie.cs` declares `Expired` and `Click`. The model reads
  them as the same members.

## Model

| member | source | states |
|---|---|---|
| Cookies.NewCookie | src/Entities/Cookie.cs:9-10 | a new cookie carries the freshly drawn id and no clicks |
| Cookies.NewCachedCookie | src/Entities/CachedCookie.cs:12-17 | a new entry holds the cookie and the saved flag it was given, is touched now, and is not expired at creation |
| Cookies.Click | src/Entities/CachedCookie.cs:19-26 | a click adds exactly one to the count, returns the new count, touches the entry now, keeps id and saved flag, and leaves the entry unexpired |
| Cookies.ClicksIncrease | src/Entities/CachedCookie.cs:19-26 | two successive clicks return consecutive counts whatever the clock reads |
| Dictionary.Add | src/CookieTracker.cs:55 | Add succeeds exactly on an absent key, then maps it to the value and keeps every other entry |
| Dictionary.AddAll | src/Responders/Router.cs:31-60 | a run of Adds succeeds exactly when the keys are distinct and absent; the result holds the old entries plus each added pair; a failure names an added key |
| CookieStore.Rows | src/CookieTracker.cs:214 | unnest pairs the i-th id with the i-th count |
| CookieStore.ApplyUpdate | src/CookieTracker.cs:191-209 | the bulk UPDATE adds or drops no row, sets each listed id that has a row to its listed count, and leaves unlisted rows alone |
| CookieStore.ApplyInsert | src/CookieTracker.cs:211-229 | the bulk INSERT succeeds exactly when the listed ids are distinct and have no row; it then adds each with its count and keeps old rows |
| CookieTracker.CreateCookie | src/CookieTracker.cs:52-56 | creation fails exactly on a resident id; otherwise the cache gains one unsaved entry for the cookie, touched now, and keeps every other entry |
| CookieTracker.Click | src/CookieTracker.cs:58-89 | a click fails exactly when the id is neither cached nor stored; a hit returns the cached count plus one and keeps the cookie id and the saved flag; a miss loads the stored count, marks the entry saved, and returns the stored count plus one; other entries are unchanged |
| CookieTracker.Drain | src/CookieTracker.cs:113-139 | the removal loop yields two index-aligned batches and only removes entries, never altering one that stays |
| CookieTracker.DrainSplitsExpired | src/CookieTracker.cs:113-139 | over a snapshot of the live map the loop removes exactly the expired ids; it splits them into disjoint UPDATE and INSERT batches whose union is the expired set |
| CookieTracker.Snapshot | src/CookieTracker.cs:103 | the snapshot lists the entry of each enumerated key in enumeration order |
| CookieTracker.Commit | src/CookieTracker.cs:141-166 | the write half of a tick never changes the cache it is given |
| CookieTracker.CommitCommands | src/CookieTracker.cs:141-161 | the UPDATE is issued exactly when its batch is non-empty and the INSERT exactly when its batch is non-empty, the UPDATE first |
| CookieTracker.CommitWrites | src/CookieTracker.cs:146-166 | with UPDATE ids stored, INSERT ids new, and no repeats, nothing faults; every listed id gets its listed count and every other row is unchanged |
| CookieTracker.FlushTick | src/CookieTracker.cs:100-167 | a tick only removes cache entries and never alters a remaining one |
| CookieTracker.SnapshotExpiredIds | src/CookieTracker.cs:103-120 | the snapshot copies the cache one entry per id, and its expired ids are the cache's quiescent ids |
| CookieTracker.TickDrain | src/CookieTracker.cs:106-139 | the UPDATE batch holds exactly the quiescent saved entries and the INSERT batch exactly the quiescent unsaved ones, each with its live count |
| CookieTracker.FlushTickKeepsHotEntries | src/CookieTracker.cs:113-126 | after a tick, exactly the entries that are not quiescent are resident, each unchanged |
| CookieTracker.FlushTickWritesQuiescent | src/CookieTracker.cs:128-166 | from a valid state a tick does not fault; the store gains exactly the quiescent new ids, every quiescent id holds its cached count, other rows are unchanged, and a tick with nothing quiescent leaves the store alone |
| CookieTracker.CommitFlushesBatches | src/CookieTracker.cs:141-166 | committing an UPDATE batch of stored entries and an INSERT batch of unstored ones does not fault, adds exactly the INSERT ids, writes each listed entry's live count and leaves every other row alone |
| CookieTracker.FlushTickCommands | src/CookieTracker.cs:141-161 | a tick issues no statement when nothing is quiescent, otherwise an UPDATE of exactly the quiescent saved ids and then an INSERT of exactly the quiescent unsaved ids |
| CookieTracker.FlushTickPreservesValid | src/CookieTracker.cs:100-167 | a tick keeps every key equal to its cookie's id and every saved flag in step with the store |
| CookieTracker.CreateCookiePreservesValid | src/CookieTracker.cs:52-56 | creating a cookie whose id has no row keeps the state valid |
| CookieTracker.ClickPreservesValid | src/CookieTracker.cs:58-89 | a click keeps the state valid and caches the clicked id under its own id |
| CookieTracker.FlushTickRespectsDebounce | src/CookieTracker.cs:115-126 | an entry touched at T survives a tick at any instant up to T plus five seconds and is removed by a tick at any later instant |
| CookieTracker.CreateFlushClickRoundTrip | src/CookieTracker.cs:52-139 | create, flush past the window, then click: the row holds the created count, and the click reloads it as a saved entry and returns that count plus one |
| Hex.HexCharToByte | src/Responders/DiscordHeaderVerifier.cs:76-82 | a character decodes exactly when it is a Base 16 digit of either case, to the value whose lower- or upper-case digit it is; otherwise it reports that character |
| Hex.HexCharToByteInverts | src/Headers/DiscordHeaderAuthentication.cs:65-71 | every digit value written in either case decodes back to itself |
| Hex.DecodeFrom | src/Responders/DiscordHeaderVerifier.cs:68-73 | the pair loop succeeds exactly when every remaining character is a digit, reports the first one that is not, and keeps the buffer length |
| Hex.DecodeFromWritesPairs | src/Responders/DiscordHeaderVerifier.cs:68-73 | a successful pair loop writes each pair's byte at its index and leaves every other byte alone |
| Hex.FromHex | src/Responders/DiscordHeaderVerifier.cs:57-74 | over UTF-16 code units: odd length fails; a short buffer fails; otherwise decoding succeeds exactly on an all-digit input, writing byte j from pair j and keeping the tail; a bad digit is reported by the first invalid character |
| Hex.FromHexInvertsToHex | src/Headers/DiscordHeaderAuthentication.cs:46-63 | decoding the lower-case encoding of any bytes into a large enough buffer yields those bytes followed by the untouched rest |
| Utf16.Units | src/Responders/DiscordHeaderVerifier.cs:57-73 | a string has at least as many code units as characters, and exactly its characters as code units when none lies above U+FFFF |
| Utf16.LengthCountsUnits | src/DiscordSlashCommandHandler.cs:144-147 | the .NET length, counted as one per character up to U+FFFF and two above, is the number of code units the string holds |
| Utf16.UnitsAppend | src/DiscordSlashCommandHandler.cs:144-157 | the code units, and so the .NET length, of a concatenation are those of its parts joined |
| Utf16.AstralIsLonger | src/DiscordSlashCommandHandler.cs:144 | a string holding a character above U+FFFF has a .NET length greater than its number of characters |
| Hex.FromHexRejectsAstral | src/Responders/DiscordHeaderVerifier.cs:57-82 | a key or signature text holding a character above U+FFFF never decodes, since its surrogate code units are no Base 16 digit |
| Hex.FromHexOfPairs | src/Responders/DiscordHeaderVerifier.cs:57-73 | code units forming an even run of digits whose pair j has value byte j decode to those bytes followed by the untouched rest of a large enough buffer |
| Utf8.EncodeChar | src/Responders/DiscordHeaderVerifier.cs:42-43 | a character takes one to four bytes, one exactly below U+0080; the lead byte announces the length and every later byte is a continuation byte |
| Utf8.DecodeEncodeChar | src/Responders/DiscordHeaderVerifier.cs:42-43 | the bytes of any character decode back to its scalar value |
| Utf8.Encode | src/Responders/DiscordHeaderVerifier.cs:42-44 | the encoding is at least one byte per character and exactly one per character on ASCII |
| Utf8.EncodeInjective | src/Headers/DiscordHeaderAuthentication.cs:41 | two strings with the same UTF-8 bytes are the same string |
| Utf8.EncodeAppend | src/Headers/DiscordHeaderAuthentication.cs:41 | the encoding of an interpolated concatenation is the concatenation of the encodings |
| IntParse.TryParseInt | src/Responders/DiscordHeaderVerifier.cs:37 | a parsed value always fits a 32-bit signed int |
| IntParse.TryParseIntReadsSpelling | src/Responders/DiscordHeaderVerifier.cs:37 | every string of white space, an optional sign, decimal digits, white space and trailing U+0000s whose value fits an int parses to that value |
| IntParse.TryParseIntIsSpelling | src/Responders/DiscordHeaderVerifier.cs:37 | every string that parses is such a spelling of the value it parses to |
| IntParse.TryParseIntReadsInt | src/Responders/DiscordHeaderVerifier.cs:37 | every int from int.MinValue to int.MaxValue, written in decimal with '-' when negative and surrounded by any white space, parses back to itself |
| IntParse.TryParseIntReadsDecimal | src/Responders/DiscordHeaderVerifier.cs:37 | the decimal spelling of any natural number up to int.MaxValue parses back to that number |
| Signatures.DecodePublicKey | src/Responders/DiscordHeaderVerifier.cs:17-24 | a missing key gives 32 zero bytes; a key decodes exactly when its UTF-16 code units are an even number of at most 64 digits; pair j becomes byte j and the rest stays zero |
| Signatures.DecodeSignature | src/Responders/DiscordHeaderVerifier.cs:50-51 | a signature decodes exactly when its UTF-16 code units are an even number of at most 128 digits, into 64 bytes with zero padding |
| Signatures.PublicKeyRoundTrip | src/Headers/DiscordHeaderAuthentication.cs:16-23 | the Base 16 spelling of any 32-byte key is read back as exactly that key |
| HeaderVerifier.ContentLength | src/Responders/DiscordHeaderVerifier.cs:37 | a length is read exactly when Content-Length has one value that parses as an int; it is that parsed value and fits an int |
| HeaderVerifier.AssembleMessage | src/Responders/DiscordHeaderVerifier.cs:42-45 | assembly succeeds exactly for a non-negative length whose buffer size, timestamp bytes plus length, is at most Array.MaxLength (0x7FFFFFC7) and that the body can supply; a body too short is EndOfStream and every other failure is the size error; the message is the timestamp bytes followed by the first length body bytes |
| HeaderVerifier.RespondAsync | src/Responders/DiscordHeaderVerifier.cs:26-55 | missing, repeated and unparsable headers get their three distinct rejections before the body is read; the body is exactly Content-Length bytes; the request passes exactly when the headers are well formed, the buffer size is at most Array.MaxLength, the body is read, the signature decodes, and it verifies over timestamp bytes plus body |
| HeaderVerifier.RespondAsyncReadsWholeBody | src/Responders/DiscordHeaderVerifier.cs:37-55 | with a true Content-Length and a buffer within Array.MaxLength the whole body is kept, and the request passes exactly when the signature decodes and verifies over the timestamp bytes followed by the body |
| HeaderAuthentication.SignedMessage | src/Headers/DiscordHeaderAuthentication.cs:41 | the signed message is the timestamp's bytes followed by the content's bytes |
| HeaderAuthentication.ReadToEnd | src/Headers/DiscordHeaderAuthentication.cs:32-37 | the text read from a UTF-8 body is the body's text with a leading byte-order mark dropped: the body's bytes are the mark's three bytes, when present, followed by the text's bytes |
| HeaderAuthentication.Authenticate | src/Headers/DiscordHeaderAuthentication.cs:25-44 | missing headers are forbidden; a request authenticates exactly when the signature decodes and verifies over timestamp bytes plus body bytes (empty when absent); it throws exactly when the signature does not decode |
| HeaderAuthentication.AbsentBodyIsEmpty | src/Headers/DiscordHeaderAuthentication.cs:32-37 | a request with no body authenticates exactly as one with an empty body |
| HeaderAuthentication.AgreesWithHeaderVerifier | src/Headers/DiscordHeaderAuthentication.cs:25-44 | for a request with the two signature headers, a true Content-Length and a buffer within Array.MaxLength, the responder reads the whole body and passes exactly when the signature verifies over timestamp plus body; when the body's text does not start with U+FEFF the authenticator accepts exactly then too, and when it does the authenticator verifies over the body without its three byte-order-mark bytes |
| Router.LastIndexOf | src/Responders/Router.cs:43 | the result is -1 or an index holding the character, with no occurrence after it |
| Router.UrlName | src/Responders/Router.cs:38-51 | the URL drops the 14-character namespace; each later '.' followed by another '.' anywhere in the name becomes '/', and every other character is kept |
| Router.UrlNameKeepsExtension | src/Responders/Router.cs:40-51 | the last '.' survives conversion as the URL's last '.', so the URL ends with the resource's extension |
| Router.ResourceEntry | src/Responders/Router.cs:54-59 | a resource is routed at "/cookie_clicker/" plus its URL and is rendered from Markdown exactly when the URL ends in ".md" |
| Router.BuildRoutes | src/Responders/Router.cs:31-62 | the table builds exactly when no two resources share a URL; it then holds the API route and each resource's route, and nothing else; a failure names a resource route |
| Router.ApiRouteIsNotAResource | src/Responders/Router.cs:31-59 | no resource route can collide with the API route |
| Router.DistinctRoutesIff | src/Responders/Router.cs:59 | two resource routes collide exactly when their URL names do |
| Router.Extension | src/Responders/Router.cs:69 | the extension is a suffix of the path with no '.', and it follows a '.' unless it is the whole path |
| Router.RespondAsync | src/Responders/Router.cs:65-74 | an unknown path gets no response; a known path is answered with its route and the serializer of its extension |
| Router.ServesApiRoute | src/Responders/Router.cs:65-74 | the API route is always answered |
| Router.ApiRouteHasNoExtension | src/Responders/Router.cs:69 | the API route holds no '.', so the text after its last '.' is the whole path |
| Router.ServesEveryResource | src/Responders/Router.cs:59-70 | every resource with an extension is answered at its URL with its own route and its own extension |
| Router.ExtensionOfResourceRoute | src/Responders/Router.cs:40-69 | the extension read from a resource's route, under any route prefix, is the resource name's extension |
| Router.ServesResourceUnder | src/Responders/Router.cs:65-74 | a path the table routes to a resource is answered with that route and the resource name's extension |
| SlashCommands.JoinPath | src/DiscordSlashCommandHandler.cs:156-158 | joining appends at least one character per name and keeps the prefix |
| SlashCommands.SubcommandPath | src/DiscordSlashCommandHandler.cs:146-160 | the path starts at a subcommand-kind option of the list, is empty when there is none, and fails only on undefined nested options |
| SlashCommands.SubcommandPathFollowsFirst | src/DiscordSlashCommandHandler.cs:148-160 | the path follows the first subcommand-kind option: it fails when that option's nested options are undefined, and otherwise is that option's name followed by the path of its nested options |
| SlashCommands.GetCommandName | src/DiscordSlashCommandHandler.cs:141-164 | a command name longer than 74 UTF-16 code units overflows; a result fits 74 code units and starts with the command name |
| SlashCommands.WriteOptionsIsJoinedPath | src/DiscordSlashCommandHandler.cs:148-160 | the buffer loop succeeds exactly when the subcommand path is defined and the joined name fits the 74-code-unit buffer, and then writes exactly that name |
| SlashCommands.GetCommandNameIsJoinedPath | src/DiscordSlashCommandHandler.cs:141-164 | the dispatch name is the command name joined with the subcommand path, whenever that fits 74 UTF-16 code units, and fails otherwise |
| SlashCommands.SubcommandEntries | src/DiscordSlashCommandHandler.cs:111-117 | an option registers "command subcommand" for exactly the local subcommands named like it |
| SlashCommands.OptionEntries | src/DiscordSlashCommandHandler.cs:109-118 | the options register exactly the pairs of an option and a same-named local subcommand |
| SlashCommands.CommandEntries | src/DiscordSlashCommandHandler.cs:101-123 | a received command contributes nothing for a differently named local command, its own name when not all its options are subcommands, and its subcommand keys otherwise |
| SlashCommands.LocalEntries | src/DiscordSlashCommandHandler.cs:101-124 | a received command contributes the union over all local commands |
| SlashCommands.RegistrationsMembers | src/DiscordSlashCommandHandler.cs:99-125 | the Adds are the union over all received commands |
| SlashCommands.RegistrationsAreRegisters | src/DiscordSlashCommandHandler.cs:96-125 | an Add happens exactly for a pair the two registration branches describe |
| SlashCommands.RegisterCommands | src/DiscordSlashCommandHandler.cs:96-128 | the table builds exactly when no key is added twice |
| SlashCommands.RegisterCommandsTable | src/DiscordSlashCommandHandler.cs:96-128 | the table's keys are exactly the described keys, each mapped to a command described for it |
| SlashCommands.RegisterCommandsFailure | src/DiscordSlashCommandHandler.cs:115-122 | a failed registration names a described key |
| SlashCommands.ExecuteCommand | src/DiscordSlashCommandHandler.cs:130-139 | a command runs exactly when the name is built and is a key; a built name that is no key is NotFound |
| SlashCommands.KeysHaveAtMostOneSpace | src/DiscordSlashCommandHandler.cs:115-122 | with space-free Discord names, every key holds at most one space |
| SlashCommands.NestedSubcommandsAreNotFound | src/DiscordSlashCommandHandler.cs:130-164 | an interaction selecting a subcommand of a subcommand group is never dispatched |
| SlashCommands.OneSubcommandIsCommandSpaceName | src/DiscordSlashCommandHandler.cs:141-164 | one selected subcommand whose joined name fits 74 UTF-16 code units gives the name "command subcommand" that registration uses as key |
| SlashCommands.NoSubcommandIsCommandName | src/DiscordSlashCommandHandler.cs:141-164 | an interaction with no subcommand and a command name of at most 74 UTF-16 code units is looked up by the command name alone |
| SlashCommands.EmptyOptionsRegisterNothing | src/DiscordSlashCommandHandler.cs:107 | a received command with a defined but empty option list counts as all-subcommands and registers nothing |
| SlashCommands.SubcommandIsDispatched | src/DiscordSlashCommandHandler.cs:107-117 | an interaction naming a registered command and one of its registered subcommands, within 74 UTF-16 code units, is dispatched |
| SlashCommands.CommandIsDispatched | src/DiscordSlashCommandHandler.cs:120-123 | an interaction naming a registered plain command of at most 74 UTF-16 code units is dispatched |

## Left out

- Concurrency: the semaphore, the `lock` in `Click`, and the timer thread are not modelled. The model runs every operation and every flush tick atomically, in sequence.
- The flush period (`CookieTracker:Period`, default 30 s) is not modelled: a tick happens whenever `FlushTick` is applied.
- Database connection handling, statement preparation, the unused DELETE statement and `DisposeAsync` are not modelled. The SELECT of a cache miss is a lookup in the store map.
- Connection or I/O failures of the UPDATE and INSERT statements are not modelled. Only the key violation of the INSERT is a failure.
- Cookies.Click: counts are unbounded naturals. The limits of `decimal` and of the `(ulong)` cast of a loaded count are not modelled.
- CookieTracker.Click: the DB column's `decimal` is read as a natural number with no conversion failure.
- ULID generation is left out: a fresh id is a parameter of `Cookies.NewCookie`.
- Ed25519 verification (libsodium) is an uninterpreted parameter. Its length checks never fire, because the signature buffer is always 64 bytes and the key buffer always 32.
- Header names are matched exactly. The case-insensitivity of HTTP header names is not modelled.
- HeaderVerifier.AssembleMessage: running out of memory for a buffer below Array.MaxLength depends on the machine and is not modelled; the three exceptions of a bad size (OverflowException for a wrapped size, OutOfMemoryException above Array.MaxLength, ArgumentException from `Encoding.UTF8.GetBytes` into a buffer shorter than the timestamp) are one `BadContentLength`.
- HeaderVerifier.RespondAsync: the `Body` metadata is kept as the body's bytes. The UTF-8 decoding `Encoding.UTF8.GetString` applies to them is not modelled.
- Utf8.Encode: strings are sequences of Unicode scalar values, so a lone UTF-16 surrogate, which .NET encodes as U+FFFD, cannot be represented.
- Utf16.Units: for the same reason a lone surrogate cannot appear in a modelled string; every surrogate the model produces is half of a pair.
- IntParse.TryParseInt: it follows the invariant culture, whose signs are '-' and '+'. Culture-specific sign strings are not modelled.
- HeaderAuthentication.Authenticate: the body is the text `StreamReader.ReadToEnd` returns. `HeaderAuthentication.ReadToEnd` models that text for a body that is well-formed UTF-8, including the dropped byte-order mark; the replacement characters a reader inserts for malformed bytes are not modelled.
- HeaderAuthentication.AgreesWithHeaderVerifier: the two checks agree only for body text that does not start with U+FEFF; for text that does, the lemma states the differing message the authenticator signs instead.
- Router: reading resource streams, Markdown rendering and the serializer table are not modelled. The culture-sensitive `EndsWith(".md")` is modelled as an exact three-character suffix test, which agrees on the embedded resource names. A route records its resource and whether it is rendered from Markdown. A response records the extension that chooses the serializer.
- SlashCommands: several parts are not modelled:
  - the HTTP registration (`RegisterAsync`) and the constructor's configuration checks;
  - the reflection-built local commands;
  - running the command's method.
  
  An interaction whose data is not application-command data, where `AsT0` throws, is outside the model. `ExecuteCommand` returns the command it would run.
- SlashCommands.GetCommandName: three different exceptions of writing past the 74-code-unit buffer are one `BufferOverflow`. They are the `ArgumentException` of copying a longer command name into the buffer (`src/DiscordSlashCommandHandler.cs:145`), the index out of range on the space (:156), and the argument out of range on the slice (:157).
- Logging, the HTTP transport and the DTOs are not modelled. The modelled files are `src/CookieTracker.cs`, `src/Entities/CachedCookie.cs`, `src/Entities/Cookie.cs`, `src/Responders/DiscordHeaderVerifier.cs`, `src/Headers/DiscordHeaderAuthentication.cs`, `src/Responders/Router.cs` and `src/DiscordSlashCommandHandler.cs`; no other file of the repository is.
