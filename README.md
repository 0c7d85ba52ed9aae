# libserdes core, modelled in Dafny

libserdes is a C library that serializes and deserializes Avro payloads against a
Confluent Schema Registry. This project models its core in Dafny:

- the handle configuration (`serdes_conf_*`, `serdes_err2str`, `serdes_new`);
- the schema cache (`serdes_schema_add`/`get`/`purge` and their helpers);
- the CP1 payload framing (`serdes_framing_*`);
- the registry URL list and response buffer of the REST client;
- the `lds-gen.py` linker-script generator.

For every one of these operations the project proves what it computes.

Modules, one per source file:

- `Common` (common.dfy): `Option`, a `byte` and an `int32` newtype, and C-string helpers. `StrLen` is `strlen` and `CStr` is `strdup`.
- `Rest` (rest.dfy), for src/rest.c:
  - `UrlList` is a class for `url_list_t`. Its `Parse` method is specified by the function `ParsedUrls`.
  - `RestResponse` is a class for `rest_response_t`. Its payload is an `array<byte>`.
  - The round-robin retry loop of `rest_req` (`TryInTurn`, `UrlList.RoundRobin`) is proved against `Visits` and `RequestCode`.
  - Each turn of the loop is an `Attempt` value supplied by the caller, in place of the cURL calls. It says whether setting the URL on the handle failed, the transfer failed, or a reply came back, with or without a status code.
- `Config` (config.dfy), for src/serdes.c:
  - `serdes_conf_set` is the pure function `ConfSet`, over the configuration value `ConfState`.
  - The class `Conf` holds the same fields and updates them in place.
  - `ConfNew` models `serdes_conf_new`. Its name/value pairs are `ApplyPairs`.
- `SchemaCache` (schema_cache.dfy), for src/schema-cache.c and `serdes_new`:
  - `Schema` is a class with the fields of `serdes_schema_t`.
  - `Serdes` is a class with the handle's configuration and its cache list, a `seq<Schema>` that the methods reassign.
  - The schema registry is the oracle value `Registry`. It holds the id that a store would return and the reply that a fetch would get.
  - `Add0Result` states when a new record is created and what it holds.
  - `KeptBy` states which records a purge keeps (`Survivors` is the same list, as the purge methods state it).
  - `Fields` is a snapshot of every field of a record; the cache methods use it to state which records they leave alone.
- `Framing` (framing.dfy), for src/framing.c:
  - The CP1 envelope is one magic byte 0, followed by the schema id as a big-endian 32-bit two's-complement integer.
  - Writing goes into an `array<byte>`. Reading returns a new `Cursor` (the payload pointer and size) and the schema found through the cache.
- `LdsGen` (lds_gen.dfy), for lds-gen.py:
  - The regular expression is modelled by `LineMatches` and `MatchName`. They follow Python's backtracking: group 1 is greedy, and `serdes_\S+` is the longest match.
  - The input lines arrive as a sequence.
  - The script consists of a banner, `global:`, the sorted names, `local: *;`, and a closing brace. With no names, ` global:` is followed by `*;` and there is no `local:` section.

C strings passed to the library are `seq<char>` buffers that may hold a NUL. Every operation reads them only up to the first NUL, through `CStr`: property names and values are compared as `strcmp` compares them, and so are schema types in the cache lookup.

Time (`time(NULL)`) is a parameter `now`. The configuration's log callback and opaque pointer, and a schema's object and opaque pointer, are modelled as `Option<nat>` handles.

## Model

| member | source | states |
|---|---|---|
| Common.StrLen | src/schema-cache.c:413-414 | `strlen`: no NUL occurs before the result, and a NUL occurs at the result unless it is the end of the buffer |
| Rest.CommaFromSpec | src/rest.c:63-68 | `strchr(s, ',')`: no comma occurs before the position found, and a comma is at it unless it is the end |
| Rest.CommaFromIs | src/rest.c:63-68 | conversely, a position with no comma before it and a comma (or the end) at it is the one `strchr` finds |
| Rest.SpaceFromSpec | src/rest.c:60-61 | skipping spaces passes only `' '` characters and stops at the first other character or at the end |
| Rest.SpaceFromIs | src/rest.c:60-61 | conversely, a run of spaces ended by another character (or the end) is exactly what the skip passes |
| Rest.MaxLen | src/rest.c:73-74 | `max_len` bounds every URL's length and equals the length of some URL (0 for no URLs) |
| Rest.ParsedUrlsShape | src/rest.c:57-77 | every parsed URL is comma-free and does not start with a space |
| Rest.ParsedUrlsCount | src/rest.c:57-79 | the number of URLs is the number of commas, plus one unless the string is empty or ends in a comma |
| Rest.TrailingCommaAddsNothing | src/rest.c:57-77 | one trailing comma adds no empty URL |
| Rest.ParseStep | src/rest.c:57-77 | one turn of the parse loop: the spaces skipped and the comma found determine the next URL and where parsing resumes |
| Rest.ParseExample | src/rest.c:44-80 | `" a ,,  b,"` parses to `"a "`, `""`, `"b"`: trailing spaces are kept and empty entries between commas count |
| Rest.SkipSpaces | src/rest.c:60-61 | the loop stops at the first non-space character at or after `p`, having passed only spaces |
| Rest.FindComma | src/rest.c:63-68 | the loop stops at the first comma at or after `q`, or at the end |
| Rest.ScanUrls | src/rest.c:57-77 | the parse loop yields exactly `ParsedUrls(t)`, and its longest length is `MaxLen` of them |
| Rest.UrlList.constructor | src/rest.c:48-52 | a new list is empty: no URLs, index 0, no string, count and longest length 0 |
| Rest.UrlList.Parse | src/rest.c:44-80 | the list holds the parsed URLs of the string with index 0, and the string kept; the returned count is the number of URLs |
| Rest.UrlList.Clear | src/rest.c:82-90 | the list is empty again |
| Rest.VisitsAreDistinct | src/rest.c:315-329 | within one request no URL is tried twice, each index is in range, and a full round tries every URL |
| Rest.FirstAnswer | src/rest.c:323-325 | the first attempt whose transport succeeded, with all earlier attempts failed; or none when every attempt failed |
| Rest.FirstAnswerIs | src/rest.c:315-329 | the loop's stopping point is the first attempt that did not fail |
| Rest.UnansweredRequestFails | src/rest.c:313-329 | when no URL answers, or the loop stops at a URL that gives no status code or cannot be set, `rest_response_failed` holds of the request's code |
| Rest.TryInTurn | src/rest.c:313-329 | the loop returns the code of the first answering URL, -1 when setting a URL fails (the loop stops there without advancing the index), or -1 after every URL has failed once; the URLs it tried are consecutive from the start index, and it stops where it started or at the URL that ended it |
| Rest.UrlList.RoundRobin | src/rest.c:313-329 | as TryInTurn, on the list's own index, which stays in range and becomes the stopping URL; the URLs themselves are unchanged |
| Rest.RestResponse.constructor | src/rest.c:175-183 | a new response is empty, with code 0, no error and a buffer of `initial_size` bytes, or 0 bytes when that is not positive |
| Rest.RestResponse.Grow | src/rest.c:153-159 | the buffer grows by `max(add_size, size)`, which at least doubles it, and its existing contents are kept |
| Rest.RestResponse.Reset | src/rest.c:141-148 | code, error string and length are cleared; the buffer is kept for reuse |
| Rest.RestResponse.Write | src/rest.c:189-202 | `size * nmemb` bytes are appended to the data and that count is returned; the buffer is reallocated only when the data would not fit |
| Rest.RestResponse.Append | src/rest.c:196-200 | the bytes are appended after the data, growing the buffer first only when they do not fit; the earlier data is kept |
| Rest.RestResponse.CopyIn | src/rest.c:199-200 | the `memcpy` into a buffer with room puts the bytes right after the data and keeps the data before them |
| Config.Err2Str | src/serdes.c:20-40 | exactly the codes outside 0..6 give "(unknown error)"; every message is non-empty |
| Config.MessageCodeOfErr2Str | src/serdes.c:20-40 | each of the seven messages identifies its code, by its length and first character, so the code can be read back from the message |
| Config.Err2StrDistinguishesErrors | src/serdes.c:20-40 | different error codes have different messages, none of them "(unknown error)" |
| Config.ConfSetReadsCStrings | src/serdes.c:77-126 | the outcome depends only on the C strings of the name and the value: whatever follows a NUL is ignored, as `strcmp` and the URL parser ignore it |
| Config.SetRegistryUrl | src/serdes.c:81-88 | setting `schema.registry.url` re-parses the URL list, and the value is rejected as invalid exactly when it holds no URL |
| Config.SetFramingChangesOneField | src/serdes.c:89-107 | for a name whose C string is `serializer.framing` or `deserializer.framing`, a value whose C string is `none` or `cp1` sets only that framing field; any other value is invalid and changes nothing |
| Config.SetDebug | src/serdes.c:108-118 | for a name whose C string is `debug`, exactly the values whose C string is `all`, `""` or `none` are accepted; `all` sets 1, the other two set 0, and a rejected value changes nothing |
| Config.SetUnknownProperty | src/serdes.c:119-123 | every name whose C string is none of the four properties is rejected as unknown and changes nothing |
| Config.ConfSetIdempotent | src/serdes.c:77-126 | setting the same property to the same value twice equals setting it once |
| Config.ConfSetTouches | src/serdes.c:77-126 | each property sets only its own field (the URL list, one framing, or debug), to the value it accepts, and leaves every other field as it was |
| Config.ConfSetCommutes | src/serdes.c:77-126 | settings of two names with different C strings commute |
| Config.ApplyPairsAppend | src/serdes.c:159-172 | applying pairs in two batches equals applying them in one, and a failure stops everything |
| Config.MissingValueFails | src/serdes.c:160-165 | a name without a value anywhere in the list makes the whole construction fail |
| Config.Conf.constructor | src/serdes.c:145-149 | a new configuration has both framings CP1, debug off, no URLs and no callback |
| Config.Conf.Set | src/serdes.c:77-126 | the object's new state and the return code are `ConfSet` of its old state |
| Config.Conf.SetLogCb | src/serdes.c:130-135 | the log callback is replaced |
| Config.Conf.SetOpaque | src/serdes.c:137-139 | the opaque pointer is replaced |
| Config.Conf.CopyFrom | src/serdes.c:56-67 | the destination takes every field of the source; its URL list is re-parsed from the source's string, so it holds the same URLs with a fresh index; the source is unchanged |
| Config.ConfNew | src/serdes.c:151-177 | NULL exactly when some pair lacks a value or is rejected; otherwise the configuration is the defaults with every pair applied in order |
| SchemaCache.ToUpper | src/schema-cache.c:172-175 | `toupper` changes only lower-case letters and never yields one |
| SchemaCache.UpperCStringKeepsLength | src/schema-cache.c:172-175 | upper-casing keeps the string's length and leaves everything from the NUL on untouched |
| SchemaCache.UpperCStringHasNoLower | src/schema-cache.c:172-175 | after upper-casing no lower-case letter remains before the NUL |
| SchemaCache.UpperCStringIdempotent | src/schema-cache.c:172-175 | upper-casing twice equals upper-casing once |
| SchemaCache.MakeUpper | src/schema-cache.c:172-175 | the in-place loop leaves the buffer equal to `UpperCString` of its old contents |
| SchemaCache.UpperTypeIsUpper | src/schema-cache.c:327-330 | a stored schema type has no NUL and no lower-case letter |
| SchemaCache.DupUpper | src/schema-cache.c:327-330 | `strdup` followed by `str_mk_upper` gives `UpperType` of the input |
| SchemaCache.Add0NeedsIdentity | src/schema-cache.c:314-337 | add0 fails without a name and without an id, and when a definition is given without a name |
| SchemaCache.Add0WithoutRegistry | src/schema-cache.c:305-368 | with no registry URLs, add0 succeeds exactly when a definition and a name are given and the id is not -1 |
| SchemaCache.Add0KeepsGivenDefinition | src/schema-cache.c:305-368 | a record add0 creates keeps any given id other than -1, the given name, and the given definition cut to its length |
| SchemaCache.Add0TypeIsUpper | src/schema-cache.c:305-368 | the type of every record add0 creates is upper case |
| SchemaCache.Schema.constructor | src/schema-cache.c:320-322 | `calloc`: a new record has the given id and handle, with every other field empty or 0 |
| SchemaCache.Schema.SetDefinition | src/schema-cache.c:40-55 | NULL clears the definition; otherwise a copy of `len` bytes is stored (`strlen` bytes when `len` is -1) with its length |
| SchemaCache.Schema.MarkUsed | src/schema-cache.c:29-33 | the last-use time becomes `now` |
| SchemaCache.Schema.SetObject | src/schema-cache.c:470-472 | the schema object is replaced |
| SchemaCache.Schema.SetOpaque | src/schema-cache.c:506-508 | the opaque pointer is replaced |
| SchemaCache.DefinitionBytes | src/schema-cache.c:40-55 | the stored definition is a prefix of the given bytes: `len` of them, or the C string when `len` is -1 |
| SchemaCache.IdIndex | src/schema-cache.c:371-384 | the position of the first record with the id, or the list's length when there is none |
| SchemaCache.MatchIndex | src/schema-cache.c:386-405 | the position of the first record with equal length and bytes and a type equal to the given one as C strings (`strcmp`), or the list's length when there is none |
| SchemaCache.MatchIndexReadsCString | src/schema-cache.c:397 | the lookup reads the given type only up to its first NUL |
| SchemaCache.Serdes.constructor | src/serdes.c:210-224 | a new handle has an empty cache and a copy of the given configuration, or the defaults when none is given |
| SchemaCache.Serdes.FindById | src/schema-cache.c:371-384 | the loop returns the first cached record with that id, or NULL |
| SchemaCache.Serdes.FindByDefinition | src/schema-cache.c:386-405 | the loop returns the first cached record matching definition and type, or NULL |
| SchemaCache.Serdes.Fetch | src/schema-cache.c:183-293 | the fetch succeeds exactly when `FetchOutcome` gives a result, and then the record's id, type and definition are that result; name, link, last use, schema object and opaque pointer do not change |
| SchemaCache.Serdes.NewRecord | src/schema-cache.c:305-358 | NULL exactly when `Add0Result` gives none; otherwise a fresh unlinked record whose contents are that result, with last use 0 and no schema object or opaque pointer, as `calloc` leaves them |
| SchemaCache.Serdes.Add0 | src/schema-cache.c:305-368 | a record that is created is the `Add0Result` record, linked at the head of the cache with no schema object or opaque pointer and everything else unchanged; on failure the cache is unchanged |
| SchemaCache.Serdes.Link | src/schema-cache.c:364-365 | a new loaded record goes to the head of the cache, which stays free of duplicates, and is marked linked |
| SchemaCache.Serdes.Touch | src/schema-cache.c:426-427 | marking a cached record used sets its last use to `now` and keeps the cache consistent |
| SchemaCache.Serdes.Add | src/schema-cache.c:407-429 | a cached record equal in definition and type is returned with only its last-use time changed, to `now`, and the list unchanged; otherwise as Add0, and the new record is marked used at `now`; every other cached record keeps all its fields |
| SchemaCache.Serdes.Get | src/schema-cache.c:434-450 | the cached record with the id is returned with only its last-use time changed, to `now`, and the list unchanged; otherwise one is loaded from the registry, linked at the head of the cache and marked used; every other cached record keeps all its fields |
| SchemaCache.Serdes.GetAsWritten | src/schema-cache.c:434-450 | as Get, except that a record just loaded keeps last-use time 0 |
| SchemaCache.GetThenPurgeAsWritten | src/schema-cache.c:434-503 | a schema loaded by `serdes_schema_get` is removed by a following purge whenever `now - max_age > 0`, though it has just been used |
| SchemaCache.GetThenPurge | src/schema-cache.c:484-503 | with the corrected Get, a schema just returned survives a following purge |
| SchemaCache.Serdes.Destroy0 | src/schema-cache.c:61-87 | the record is unlinked from the cache if it was linked, its strings are freed, and no other record is affected |
| SchemaCache.Serdes.PurgeList | src/schema-cache.c:490-499 | the in-place loop keeps exactly `KeptBy` of the records, with all their fields unchanged, and destroys the others, counting them |
| SchemaCache.Serdes.Purge | src/schema-cache.c:484-503 | a record survives exactly when it was last used at or after `now - max_age`; the survivors keep their order and all their fields; the removed ones are destroyed and their count is returned |
| SchemaCache.KeptByExactly | src/schema-cache.c:490-499 | the kept records come from the list; a record is kept exactly when it is young enough; kept plus expired make up the whole list |
| SchemaCache.KeptByAppend | src/schema-cache.c:490-499 | purging a concatenation purges each part |
| SchemaCache.Without | src/schema-cache.c:71-72 | unlinking removes exactly the record and keeps every other one |
| SchemaCache.WithoutKeepsDistinct | src/schema-cache.c:71-72 | unlinking keeps the cache free of duplicates |
| Framing.FramingSize | src/framing.c:27-35 | the framing size is 5 for CP1 and 0 for no framing |
| Framing.SerializerFramingSize | src/framing.c:27-35 | 5 exactly when the serializer framing is CP1, else 0 |
| Framing.DeserializerFramingSize | src/framing.c:76-84 | 5 exactly when the deserializer framing is CP1, else 0 |
| Framing.DecodeIdBytes | src/framing.c:116 | `ntohl` undoes `htonl` for every id |
| Framing.IdBytesDecode | src/framing.c:54 | every 4-byte pattern is the `htonl` encoding of the id it decodes to |
| Framing.IdEncodingIsBijective | src/framing.c:54 | distinct ids are framed differently, and every 4-byte pattern is some id's framing |
| Framing.Cp1Header | src/framing.c:43-57 | the header is 5 bytes: magic 0, then bytes that decode to the id |
| Framing.Cp1Write | src/framing.c:43-57 | with fewer than 5 bytes of room, -1 and the buffer unchanged; otherwise 5, the header in the first 5 bytes and the rest untouched |
| Framing.FramingWrite | src/framing.c:61-70 | CP1 framing writes as Cp1Write; any other framing writes nothing and returns 0 |
| Framing.Cp1Read | src/framing.c:93-124 | -1 exactly when fewer than 5 bytes remain or the magic byte is not 0, and then the cursor does not move; otherwise 5, with the cursor moved past a header that encodes the returned id |
| Framing.Cp1RoundTrip | src/framing.c:93-124 | reading a buffer that Cp1Write framed returns the written id and exactly the body after the header |
| Framing.ReadFraming | src/framing.c:138-159 | no framing gives 0 with no id, an unknown framing gives -1, CP1 reads as Cp1Read |
| Framing.FramingRead | src/framing.c:131-168 | the cursor moves as the framing reader says; without a CP1 header there is no schema and the cache is unchanged; with one, the result is -1 exactly when no schema comes back; the schema is the cached one with that id, with only its last-use time changed and the list unchanged, or else the record `Add0Result` loads from the registry, linked at the head of the cache (none, and the cache unchanged, when loading fails); every other cached record keeps all its fields; a returned schema has the id and is marked used, as under the corrected Get |
| LdsGen.MatchName | lds-gen.py:18-20 | a line yields a name exactly when it matches the regular expression; every name starts with `serdes_`, is longer than that prefix and has no white space |
| LdsGen.NameShape | lds-gen.py:18 | the second group is `serdes_` followed by at least one non-space character |
| LdsGen.CaptureIsLatestLongest | lds-gen.py:18-20 | the captured name is the one whose start is latest and whose end is furthest, as Python's backtracking picks it |
| LdsGen.EmptyParensDoNotMatch | lds-gen.py:18 | a line whose every `(` is followed by `)` yields no name |
| LdsGen.IndentedLinesDoNotMatch | lds-gen.py:18 | a line that starts with white space yields no name |
| LdsGen.CollectSymbols | lds-gen.py:14-27 | the loop collects exactly the names of `Scan` of the lines |
| LdsGen.ScanIsSlidingWindow | lds-gen.py:14-27 | a line's name is kept exactly when the previous line was non-matching and has no unused marker; `last_line` is that previous non-matching line |
| LdsGen.CollectedNamesArePublic | lds-gen.py:18-24 | every collected name starts with `serdes_` |
| LdsGen.NonMatchingLineOnlyUpdatesLookBack | lds-gen.py:26-27 | a non-matching line adds no name and becomes the look-back line |
| LdsGen.MarkerSuppressesAtMostOne | lds-gen.py:25 | a matching line directly after another matching line is always exported |
| LdsGen.DroppedIffMarked | lds-gen.py:22-25 | a matching line's name is dropped exactly when the look-back line begins with an unused marker |
| LdsGen.StrLeTotal | lds-gen.py:38 | the string order used by `sorted` is total |
| LdsGen.StrLeAntisymmetric | lds-gen.py:38 | the string order used by `sorted` is antisymmetric |
| LdsGen.StrLeTransitive | lds-gen.py:38 | the string order used by `sorted` is transitive |
| LdsGen.Insert | lds-gen.py:38 | inserting into a sorted list keeps it sorted and adds exactly that element |
| LdsGen.SortNames | lds-gen.py:38 | `sorted(funcs)` is sorted and a permutation of the names |
| LdsGen.SortedPermutationIsUnique | lds-gen.py:38 | there is exactly one sorted arrangement of a list of names |
| LdsGen.Emit | lds-gen.py:33-43 | the printed lines are exactly `Script` of the names |
| LdsGen.Generate | lds-gen.py:14-43 | the whole script is `Script` of the names the scan collects |
| LdsGen.ScriptFrame | lds-gen.py:33-43 | every script opens with the banner and ` global:` and closes with `};` |
| LdsGen.EmptyScript | lds-gen.py:35-36 | with no names, `global` exports everything and there is no `local` section |
| LdsGen.ScriptListsSortedNames | lds-gen.py:37-41 | with names, the script lists them in sorted order, one `    name;` line each, followed by `local: *;` |
| LdsGen.ScriptLinesComeFromFuncs | lds-gen.py:37-41 | every symbol line names a collected function |
| LdsGen.GeneratedSymbolsArePublic | lds-gen.py:14-43 | every symbol the script exports is a public `serdes_` function found in the input |

## Left out

- The cURL transfer in `rest_req` (src/rest.c:242-312), the JSON encoding and parsing to and from the registry, and `serdes_log` are not modelled. Their outcomes are parameters: an `Attempt` per URL, and a `Registry` value with the id a store returns and the reply a fetch gets.
- Mutexes (`sd_lock`), `mtx_init` and thread safety are not modelled, because the model is sequential.
- The error strings written into `errstr` are left out, because only the return codes are modelled. `rest_response_strerror` is left out for the same reason.
- The destroy functions `serdes_destroy`, `serdes_conf_destroy`, `url_list_clear`'s `free` calls and `rest_response_destroy` are left out. Dafny memory is not freed explicitly. The fields they reset are modelled.
- `serdes_conf_copy` (src/serdes.c:69-74) is not a separate member. It is `Config.Conf.constructor` followed by `Config.Conf.CopyFrom`.
- `serdes_new` destroys the caller's configuration after copying it. The model leaves the caller's object alone.
- `url_list_clear` frees the URL strings but does not reset `cnt`, `idx` and `max_len`. `Rest.UrlList.Clear` resets them. This gives the same outcome in every caller. `serdes_conf_copy0` (src/serdes.c:58-61) clears the destination and parses only when the source has a URL string, but its destination is always freshly zeroed: `serdes_conf_copy` takes it from `serdes_conf_new`, and `serdes_new` from `calloc`. The other callers parse the list again or destroy it right after.
- `serdes_schema_store`'s JSON request and response parsing is not modelled. Only the id it yields is modelled, as `Registry.stored`.
- The JSON `id` of a fetch reply arrives as an `int32`. The truncation from a JSON integer is not modelled.
- `ToUpper` is ASCII only: `toupper` in the C locale. Other locales are not modelled.
- C integer overflow is not modelled: `now - max_age` in purge, `size * nmemb` and `len + size` in the write callback, and the doubling in `rest_response_grow` are computed on unbounded integers.
- `rest_req` leaves the list's index at the URL that answered, or back at its start. Loading a schema through a registry that has several URLs does not advance that index in this model.
- SchemaCache.Serdes.Add requires a type whenever a definition is given. In the source, `serdes_schema_add0` asserts this, and `find_by_definition` would call `strcmp` with NULL.
- SchemaCache.Serdes.Add requires `SafeLookup`. A cached record without a type, compared with a given type, would be a `strcmp` on NULL in the source.
- SchemaCache.Serdes.Add0 requires `0 <= definitionLen` when a definition is given. Its only caller, `serdes_schema_add`, has already replaced -1 by `strlen`.
- Framing.Cp1Write returns -1 as an `int`, where the C function returns `(size_t)-1`.
- Framing.Cp1Read assumes that `buf` covers the window that `*payloadp` and `*sizep` describe. The source cannot check this.
- `Common.byte` is a `newtype` over 0..255 rather than `bv8`. The framing only moves whole bytes.
- `LdsGen` models `sys.stdin` as a sequence of lines and `print` as a sequence of output lines. `LdsGen.Text` joins the output lines with newlines. Python's `\s` is modelled as the characters for which `str.isspace` holds.
- The framing constants `SERDES_FRAMING_*` of src/serdes_int.h are the `Framing` datatype. A value outside them is `UnknownFraming`.
- Framing.FramingRead: calls the corrected `Serdes.Get` rather than `serdes_schema_get` as written (src/framing.c:161), so a schema it has just loaded from the registry is marked used at `now`; the source leaves its last-use time at 0 (see Findings).

## Findings

| source | as written | input that shows it | evidently intended | confidence | as-written member | corrected member |
|---|---|---|---|---|---|---|
| src/schema-cache.c:434-450 | `serdes_schema_get` marks a schema used only when it comes from the cache; a schema it has just loaded from the registry keeps `ss_t_last_used` 0 | empty cache, a registry that answers the id, then `serdes_schemas_purge` with `time(NULL) - max_age > 0`: the schema just returned is destroyed | mark the loaded schema used as well, as `serdes_schema_add` does (src/schema-cache.c:426-427) and as the purge documentation in serdes.h promises (unused for `max_age` seconds) | not executed | SchemaCache.Serdes.GetAsWritten, SchemaCache.GetThenPurgeAsWritten | SchemaCache.Serdes.Get, SchemaCache.GetThenPurge |
