# Locale bundle: compile pass and runtime language resolution

This project models the locale bundle of an Eden application in Dafny. The
bundle has two parts.

- **The `locales` build task.** It has a TypeScript version
  (`bundles/locale/tasks/locales.ts`) and an older JavaScript version
  (`bundles/locale/tasks/locales.js`).
  - Its `thread` takes the glob result, an ordered list of translation
    fragments (basename and parsed JSON). Each basename gives a
    (namespace, locale) pair.
  - It lists namespaces and locales in order of first discovery, and
    deep-merges the fragments of each pair.
  - It clears the output directory and writes one `${ns}.${loc}.json` per
    pair that occurred, namespace-major.
  - A `null` fragment makes the merge throw, unless the pair's value so far
    is an array (then the pair's value becomes `null`). On a throw the thread
    rejects before anything on disk changes, and `run` goes no further.
  - In the TypeScript version, `thread` returns the manifest
    `{locales, namespaces}`. `run` writes it into the CLI's index module,
    restarts the server and reports `loaded N locales!`.
  - In the JavaScript version, `thread` itself issues the write of the
    manifest to a cache file and does not await it. `run` only awaits the
    thread and restarts the server.
- **The runtime side.** This is the controller
  (`bundles/locale/controllers/locale.ts`) and the helper
  (`bundles/locale/helpers/locale.ts`).
  - The controller keeps a session-to-language map filled by the `lang`
    call. Its render hook settles the request language (fallback, last
    token of a composite tag) and builds the view's i18n object once.
  - The view's `t` memoises translations keyed by `JSON.stringify(args)`,
    and reuses only truthy entries.
  - The socket hook's `t` copies the session language into `data.lng`. The
    middleware copies the request language onto the user with
    lock/set/save/unlock.
  - A route serves compiled locale files, with `{}` as the fallback.
  - The helper's `t` picks the language by precedence and calls the
    engine. Its `build` derives `ns`, `lngs`, `whitelist` and
    `cache.versions` from the compiled manifest.

## Layout

| module | file | what it holds |
|---|---|---|
| `Wrappers` | wrappers.dfy | `Option` and string truthiness |
| `Strings` | strings.dfy | JS `split`, `join`, the last-token rule, `replace` with a string pattern, decimal rendering |
| `Json` | json.dfy | JSON values, truthiness, the deep merge and its key-path laws |
| `Catalog` | catalog.dfy | functions that state what one pass computes, and the lemmas about them |
| `Host` | host.dfy | `Machine`: the files on disk, writes issued but not awaited, and an effect log |
| `Compile` | compile.dfy | the discovery loop and the nested write loops, proved against `Catalog` |
| `LocalesTs`, `LocalesJs` | locales_ts.dfy, locales_js.dfy | the two task classes: `Thread` and `Run` |
| `Entities` | entities.dfy | the mutable options object and the user record with its journal |
| `Helper` | helper.dfy | the helper's `t`, the language precedence, and `build` |
| `Controller` | controller.dfy | sessions, the render hook, the memoised `t`, the socket hook, the middleware, the route |

The loops of `thread` are imperative methods over a `Machine`. Each one
states its result and the new state as exactly the value of a `Catalog`
function (`BuildCatalog`, `Locales`, `Namespaces`, `Plan`). The lemmas say
what those functions mean:

- the fold per key
- first-seen uniqueness and order
- exactly one file per pair that occurred
- namespace-major order
- no stale files

Three behaviours of the code are worth stating outright:

- **Language precedence.** The socket hook writes the session language into
  `data.lng`, but the helper's `t` always overwrites `lng` from `opts.lang`,
  the user and the fallback. So the session language never reaches the
  engine (`Controller.SessionLanguageDiscarded`).
- **Lock release.** The middleware has no `try`/`finally`. When `save`
  fails, or when `req.language` is absent, the user stays locked and the
  middleware's promise rejects (`Controller.LocaleController.MiddlewareAction`).
- **Merging.** The `deepmerge` package merges two arrays by its array
  strategy, which is a parameter here (`ArrayMerge`). A later value that is
  not an array merged over an object keeps the object's keys and adds its
  own: none for a number or boolean, one per character for a string. A
  later `null` throws.

## Model

| member | source | states |
|---|---|---|
| `Catalog.DefaultNamespace` | bundles/locale/tasks/locales.ts:36 | the default namespace is the configured `i18n.defaultNS` when that is a non-empty string, otherwise `default`; it is never empty |
| `Wrappers.OrDefault` | bundles/locale/tasks/locales.ts:36 | a JavaScript `or` default for a string: a truthy string is kept, otherwise the default stands in, and a non-empty default gives a non-empty result |
| `Strings.Split` | bundles/locale/tasks/locales.ts:77 | `split` always yields at least one piece |
| `Strings.SplitPiecesFree` | bundles/locale/tasks/locales.ts:77-79 | no piece of a split holds the separator |
| `Strings.SplitJoin` | bundles/locale/tasks/locales.ts:77-79 | joining the pieces with the separator gives the string back |
| `Strings.SplitSingle` | bundles/locale/tasks/locales.ts:77 | a string splits into exactly one piece iff it holds no separator, and that piece is the string |
| `Strings.SplitAround` | bundles/locale/tasks/locales.ts:77-79 | splitting `a + c + b` at `c` is the split of `a` followed by the split of `b` |
| `Strings.ReplaceFirstAbsent` | bundles/locale/tasks/locales.ts:71 | `replace` leaves a string without the pattern unchanged |
| `Strings.ReplaceFirstAt` | bundles/locale/tasks/locales.ts:71 | `replace` with a string pattern replaces exactly the first occurrence |
| `Catalog.StemOfJsonName` | bundles/locale/tasks/locales.ts:71 | removing `.json` from `stem.json` gives `stem` when the only `.json` is the final one |
| `Catalog.DeriveKeyTwoParts` | bundles/locale/tasks/locales.ts:71-80 | `ns.loc.json` gives namespace `ns` and locale `loc` (the same lines are locales.js:65-74) |
| `Catalog.DeriveKeyDefault` | bundles/locale/tasks/locales.ts:74-80 | `loc.json` without a further dot gives the default namespace and locale `loc` |
| `Catalog.DeriveKeyExtraParts` | bundles/locale/tasks/locales.ts:77-80 | with three or more dot-separated parts, part 0 is the namespace, part 1 the locale, and the rest is dropped |
| `Catalog.DeriveKeyLocaleHasNoDot` | bundles/locale/tasks/locales.ts:77-80 | a derived locale never holds a dot; a derived namespace holds one only when it is the default |
| `Catalog.FirstSeenSpec` | bundles/locale/tasks/locales.ts:83-84 | the list of names has no duplicates, holds exactly the names found, and orders them by first discovery (also locales.js:77-78) |
| `Catalog.FirstSeenCount` | bundles/locale/tasks/locales.ts:83-84 | the list length is the number of distinct names found |
| `Catalog.AbsorbInPlace` | bundles/locale/tasks/locales.ts:87-95 | the three statements of the loop body (create the namespace, reset an absent or `null` entry to `{}`, merge) perform one `Absorb` step |
| `Catalog.FoldMergeSingle` | bundles/locale/tasks/locales.ts:89-95 | a pair with a single fragment gets the merge of that fragment into `{}`: an object or array as it is, `{}` for a number or boolean, and a thrown merge for `null` |
| `Catalog.CatalogByKey` | bundles/locale/tasks/locales.ts:86-96 | a pair was discovered iff it has fragments; when the pass succeeds, a pair is in the catalog iff it was discovered, and its value is the left fold of the merge over its fragments in glob order, from `{}` (also locales.js:80-90) |
| `Catalog.CatalogSucceeds` | bundles/locale/tasks/locales.ts:86-96 | the pass succeeds exactly when the fold of every discovered pair's fragments succeeds |
| `Catalog.FailureStays` | bundles/locale/tasks/locales.ts:86-96 | once the loop has thrown on a prefix of the glob result, the whole pass fails |
| `Catalog.CatalogKeysListed` | bundles/locale/tasks/locales.ts:83-95 | every pair in the catalog has its namespace and locale in the discovered lists |
| `Compile.Collect` | bundles/locale/tasks/locales.ts:63-96 | the discovery loop succeeds iff `BuildCatalog` does, and then yields exactly it, `Locales` and `Namespaces` of the glob result (the same loop is locales.js:57-90) |
| `Compile.MergeFragment` | bundles/locale/tasks/locales.ts:87-95 | the loop body succeeds exactly when `Absorb` does, and then yields its catalog |
| `Catalog.ManifestJson` | bundles/locale/tasks/locales.ts:126-129 | the manifest is an object with exactly the keys `locales` and `namespaces` |
| `Catalog.RowPlanMembers` | bundles/locale/tasks/locales.ts:112-121 | the inner loop writes a pair iff its locale is listed and the pair occurred, with the merged document |
| `Catalog.PlanMembers` | bundles/locale/tasks/locales.ts:108-123 | the nested loops write a pair iff both names are listed and the pair occurred, with the merged document |
| `Catalog.RowPlanOrdered` | bundles/locale/tasks/locales.ts:112-121 | within a namespace, writes are distinct and follow `localeTypes` order |
| `Catalog.PlanOrdered` | bundles/locale/tasks/locales.ts:108-123 | with duplicate-free lists, each pair is written once, namespace-major, then by locale |
| `Catalog.CompiledExactly` | bundles/locale/tasks/locales.ts:108-123 | one run writes one document per pair that occurred, holding its fold; pairs of the cross product that never occurred are skipped; order is namespace-major in discovery order (also locales.js:102-117) |
| `Catalog.KeysOfAt` | bundles/locale/tasks/locales.ts:63-80 | the discovery loop keys the files one by one: entry `i` is the key derived from file `i`'s basename |
| `Catalog.NamesOfAt` | bundles/locale/tasks/locales.ts:77-84 | entry `i` of the namespace and locale sequences is the namespace and locale of key `i` |
| `Catalog.KeysOfLocalesHaveNoDot` | bundles/locale/tasks/locales.ts:79 | every discovered pair has a dot-free locale |
| `Catalog.FileNameInjective` | bundles/locale/tasks/locales.ts:116 | distinct pairs with dot-free locales get distinct `${namespace}.${locale}.json` names |
| `Compile.Written` | bundles/locale/tasks/locales.ts:116-119 | every file written lies in the output directory |
| `Compile.WriteLog` | bundles/locale/tasks/locales.ts:119 | the log holds one write entry per planned write, in order, naming its file |
| `Compile.WrittenExact` | bundles/locale/tasks/locales.ts:116-119 | writes for distinct pairs leave exactly one file per write, holding its document |
| `Compile.NoStaleFiles` | bundles/locale/tasks/locales.ts:99-105 | after clearing and writing, every file in the directory comes from this run, and nothing outside it changed |
| `Compile.CompiledDirectory` | bundles/locale/tasks/locales.ts:99-123 | the output directory holds exactly one file per pair that occurred, with that pair's fold; no earlier file survives; nothing outside changed |
| `Compile.WriteRow` | bundles/locale/tasks/locales.ts:112-121 | the inner loop's effect on files and log is the writes of `RowPlan` |
| `Compile.WriteCatalog` | bundles/locale/tasks/locales.ts:98-123 | remove, then ensureDir, then the nested loops: the files are the cleared ones plus the writes of `Plan`, and the log shows removal and creation before every write (also locales.js:92-117) |
| `Host.Cleared` | bundles/locale/tasks/locales.ts:102 | after `fs.remove(dir)`, exactly the files outside `dir` remain, unchanged |
| `Host.Machine.Remove` | bundles/locale/tasks/locales.ts:102 | removal deletes the directory's files and is logged |
| `Host.Machine.EnsureDir` | bundles/locale/tasks/locales.ts:105 | creating the directory changes no file and is logged |
| `Host.Machine.WriteJson` | bundles/locale/tasks/locales.ts:119 | an awaited write stores the document at its path and is logged |
| `Host.Machine.IssueWriteJson` | bundles/locale/tasks/locales.js:120-123 | a write that is not awaited is only pending; no file changes yet |
| `Host.Machine.WriteIndex` | bundles/locale/tasks/locales.ts:40 | the index module write is logged with the manifest it holds |
| `Host.Machine.Restart` | bundles/locale/tasks/locales.ts:43 | the restart is logged and changes no file |
| `LocalesTs.FrontendDir` | bundles/locale/tasks/locales.ts:99 | the output directory lies inside the application root, two segments below it (`www/locales`) |
| `LocalesTs.LocalesTask.Thread` | bundles/locale/tasks/locales.ts:56-130 | the pass returns `{locales: localeTypes, namespaces}` and the directory is cleared and then holds the planned writes; when a merge throws, it rejects and no file, pending write or log entry changes |
| `LocalesTs.LocalesTask.Run` | bundles/locale/tasks/locales.ts:29-47 | the pass runs with the configured default namespace; then come the index write with the manifest and the restart, and the status is `loaded N locales!`; a rejected pass leaves everything unchanged |
| `LocalesTs.RunOrder` | bundles/locale/tasks/locales.ts:31-43 | in a run's log, clearing and creation come first, then all catalog writes, then the index write, and the restart is last |
| `Catalog.LoadedCountsDistinctLocales` | bundles/locale/tasks/locales.ts:46 | the status is `loaded ` + decimal digits + ` locales!`, and the digits read back as the number of distinct locales |
| `Strings.NatToStringRoundTrip` | bundles/locale/tasks/locales.ts:46 | the decimal rendering of a count parses back to the count |
| `Strings.NatToString` | bundles/locale/tasks/locales.ts:46 | the rendering is a non-empty string of digits without a leading zero |
| `LocalesJs.DataDir` | bundles/locale/tasks/locales.js:93 | the output directory lies inside the application root, three segments below it (`data/www/locales`) |
| `LocalesJs.CachePath` | bundles/locale/tasks/locales.js:120 | the manifest file lies inside the application root, three segments below it (`.edenjs/.cache/locale.json`) |
| `LocalesJs.CacheOutsideData` | bundles/locale/tasks/locales.js:93-120 | the manifest file lies outside the directory the pass clears |
| `LocalesJs.LocalesTask.Thread` | bundles/locale/tasks/locales.js:50-124 | the directory is cleared and then holds the planned writes; the manifest write is issued after them and left pending; when a merge throws, it rejects and nothing changes |
| `LocalesJs.LocalesTask.Run` | bundles/locale/tasks/locales.js:29-41 | the restart comes after the thread's writes and after the manifest write was issued, which may still be pending; a rejected thread means no restart and no change |
| `LocalesJs.RunOrder` | bundles/locale/tasks/locales.js:31-40 | in a run's log, all catalog writes precede the issued manifest write, the restart is last, and no awaited write of the manifest path happens |
| `Json.DeepMerge` | bundles/locale/tasks/locales.ts:95 | the merge throws exactly when the later value is `null` and the earlier one is not an array; merging two objects gives an object whose keys are the union of theirs |
| `Json.MergeIntoEmpty` | bundles/locale/tasks/locales.ts:89-95 | merging into `{}` gives an object or array as it is, `{}` for a number or boolean, the index-keyed characters for a string, and throws for `null` |
| `Json.ScalarKeepsTarget` | bundles/locale/tasks/locales.ts:95 | a number or boolean merged over an object leaves the object as it is |
| `Json.LaterLeafWins` | bundles/locale/tasks/locales.ts:95 | every non-object, non-array value inside the later value wins at its key path, at any depth, and the merge does not throw |
| `Json.EarlierLeafSurvives` | bundles/locale/tasks/locales.ts:95 | every earlier value survives unless the later object reaches its key path, and the merge does not throw |
| `Json.MergeNestedExample` | bundles/locale/tasks/locales.ts:95 | `{a:{x:1}}` merged with `{a:{y:2}}` is `{a:{x:1,y:2}}` |
| `Json.MergeStringExample` | bundles/locale/tasks/locales.ts:95 | `{}` merged with the string `"ab"` is `{"0":"a","1":"b"}` |
| `Json.MergeArrayExample` | bundles/locale/tasks/locales.ts:95 | two arrays under one key are combined by the array strategy, not replaced by fiat |
| `Controller.LocaleController.LangAction` | bundles/locale/controllers/locale.ts:86-92 | the session's entry becomes `lang` unconditionally; every other entry is unchanged; a missing id is the key `undefined` |
| `Controller.SessionCookie` | bundles/locale/controllers/locale.ts:150 | the session cookie is the configured `session.key` when that is a non-empty string, else `eden.session.id` |
| `Controller.LangReachesSocketData` | bundles/locale/controllers/locale.ts:86-156 | a language set by `lang` for the cookie's session reaches the socket hook's data, and is still ignored by the engine call |
| `Controller.SessionLanguageDiscarded` | bundles/locale/controllers/locale.ts:155-159 | whatever the sessions hold, the options the engine receives from a socket call are the same |
| `Controller.LocaleController.SocketT` | bundles/locale/controllers/locale.ts:143-161 | a missing `data` becomes `{}`; `data.lng` is first set to the session language when that is truthy; the engine then receives `data` with only `lng` chosen by the helper's precedence; the call is recorded |
| `Controller.LocaleController.RenderHook` | bundles/locale/controllers/locale.ts:99-120 | a truthy `req.language` is kept and a falsy one becomes the fallback; `render.i18n` is built only when it is falsy, and a truthy one (with its cache) is kept |
| `Controller.HookLngIsLastToken` | bundles/locale/controllers/locale.ts:105-119 | unless the configuration sets `lng`, the view's language is the last space-separated token of the request language, and a tag without spaces maps to itself |
| `Controller.HookConfiguredLngWins` | bundles/locale/controllers/locale.ts:105-119 | an `lng` in the `i18n` configuration overrides the request's language |
| `Controller.HookDefaultsEmpty` | bundles/locale/controllers/locale.ts:108 | a freshly built i18n object starts with an empty translation cache unless the configuration brings one |
| `Controller.WithDefaults` | bundles/locale/controllers/locale.ts:130 | storing a cache into the i18n object makes it that object's cache, and every other field of the object is kept |
| `Controller.MemoT` | bundles/locale/controllers/locale.ts:127-133 | `t` returns the stored entry for its key; a truthy entry is reused without calling the engine; otherwise the engine is called once, its answer is stored and returned, and only that key changes |
| `Controller.CachedStable` | bundles/locale/controllers/locale.ts:130 | a truthy entry is never replaced by later calls |
| `Controller.AtMostOnce` | bundles/locale/controllers/locale.ts:127-133 | in any run of calls, with other arguments mixed in, the engine is called for given arguments at most once when its answer is truthy, and never when a truthy entry is already cached; after such a call the entry is cached |
| `Controller.EmptyRecomputed` | bundles/locale/controllers/locale.ts:130 | a falsy answer such as `""` is recomputed on every repetition |
| `Controller.LocaleController.RenderT` | bundles/locale/controllers/locale.ts:125-134 | the view's `t` updates the cache, the engine calls and its answer exactly as `MemoT` does |
| `Controller.Translator.T` | bundles/locale/controllers/locale.ts:130 | `req.i18n.t(...args)` answers by the engine's function and is recorded |
| `Controller.LocaleController.MiddlewareAction` | bundles/locale/controllers/locale.ts:172-193 | no user: `next`; no mismatch: nothing changes; mismatch: lock, set `lang` to the last token, save, and unlock only when the save succeeds; without a request language it rejects after the lock |
| `Controller.CompositeTagAlwaysResyncs` | bundles/locale/controllers/locale.ts:177-182 | a tag with a space is compared whole but stored as its last token, so the next request finds a mismatch again |
| `Controller.PlainTagSettles` | bundles/locale/controllers/locale.ts:177-182 | a plain non-empty tag, once stored, no longer triggers a write |
| `Strings.LastTokenHasNoSpace` | bundles/locale/controllers/locale.ts:106 | the last token holds no space, so a composite tag never reduces to itself |
| `Strings.LastTokenPlain` | bundles/locale/controllers/locale.ts:106 | a tag without spaces is its own last token |
| `Strings.LastTokenAfterSpace` | bundles/locale/controllers/locale.ts:106 | the last token of `a + " " + b` is `b` when `b` has no space |
| `Strings.LastTokenIsSuffix` | bundles/locale/controllers/locale.ts:106 | the last token is a suffix of the tag |
| `Controller.ServesCompiled` | bundles/locale/controllers/locale.ts:65-75 | after a successful TypeScript pass, the route answers with the fold of a pair that occurred, and `{}` for any other pair with a dot-free locale |
| `Entities.JsObject.Set` | bundles/locale/helpers/locale.ts:49 | assigning a property changes that property only |
| `Entities.User.Lock` | bundles/locale/controllers/locale.ts:179 | locking is recorded and leaves `lang` alone |
| `Entities.User.SetLang` | bundles/locale/controllers/locale.ts:182 | `set('lang', v)` stores `v` and is recorded |
| `Entities.User.Save` | bundles/locale/controllers/locale.ts:185 | saving is recorded; its success is the store's answer |
| `Entities.User.Unlock` | bundles/locale/controllers/locale.ts:188 | unlocking is recorded and leaves `lang` alone |
| `Helper.WithLng` | bundles/locale/helpers/locale.ts:49 | only `lng` changes; it is `opts.lang` if truthy, else the user's `lang` if a user is given and it is truthy, else the fallback |
| `Helper.IncomingLngIgnored` | bundles/locale/helpers/locale.ts:49 | any incoming `opts.lng` is overwritten: the result does not depend on it |
| `Helper.LngAlwaysSet` | bundles/locale/helpers/locale.ts:49 | with a non-empty fallback the engine always receives a truthy language |
| `Helper.WithLngIdempotent` | bundles/locale/helpers/locale.ts:49 | choosing the language a second time changes nothing |
| `Helper.LocaleHelper.T` | bundles/locale/helpers/locale.ts:43-53 | a missing `opts` becomes a fresh `{}`; the given one is updated in place; the engine is called with the updated options and its answer returned |
| `Helper.I18next.T` | bundles/locale/helpers/locale.ts:52 | the engine answers by its function of key and options, and the call is recorded |
| `Helper.Build` | bundles/locale/helpers/locale.ts:58-71 | `ns` is the compiled namespaces; `lngs` is `i19n.lngs` when set, else the compiled locales; `whitelist` equals `lngs`; `cache.versions` maps every language of `lngs`, and nothing else, to the version |

## Left out

- File I/O is effects on `Host.Machine`. This covers glob, `fs-extra`, `require(absoluteFile)`, the CLI's `write` and the restart. The input is the glob result in order, each entry with its parsed JSON. JSON5 parsing and the JSON5 text of the index module are not modelled; the index entry holds the manifest value.
- Thread spawning and the `parser` option are not modelled. `thread` runs inline.
- JSON objects are maps, so key order is lost. Numbers are integers; floating point is not modelled.
- The `deepmerge` package's array strategy and options are a parameter, not a definition. Cloning is not modelled.
- JavaScript prototype keys (`constructor`, `__proto__`) are not modelled. `locales[namespace]` and `hasOwnProperty` are plain map membership.
- `watch()` returns a constant pattern for the CLI's watcher: `'/locales/*.json'` in the TypeScript task (locales.ts:136-140) and `['locales/*']` in the JavaScript task (locales.js:130-136). It is not modelled.
- The TypeScript task writes `www/locales`, while the helper's engine loads from `data/www/locales`. This mismatch is noted here, not modelled.
- Framework glue is not modelled: the controller's `build()` hook and router registration, the `view.compile` deletions, and the i18next middleware that sets `req.language` (an input here).
- Installing `render.helpers.i18n` is not modelled as a closure. `RenderT` takes the same render state and request the closure captures.
- `JSON.stringify` of the arguments and the engines (`req.i18n.t`, `locale.t`) are uninterpreted functions. Answers are strings. Injectivity of the cache key is not assumed.
- `Controller.LocaleController.RenderT` requires a `defaults` object in `render.i18n`. The source throws without one, for example when a truthy `render.i18n` it did not build has none.
- `Compile.Written`: a file name is one path segment. `path.join` would normalise a default namespace holding `/` or `..`. With `common/app` the write fails because the sub-directory does not exist, and with `../x` it leaves the cleared directory. Neither case is modelled.
- The `fs-extra` operations (`remove`, `ensureDir`, `writeJson`) and the CLI's `write` are taken to succeed. Their failures are not modelled.
- `Controller.ServeLocale`: the route's parameter parsing of `:ns.:lng` and Node's `require` cache are not modelled. With the cache, a file recompiled after its first request is not re-read. The path is built from segments, not text.
- `Helper.Build`: version keys are flat. `config.set` with a dotted path would nest the version of a language that contains a dot. A configured `i19n.lngs` that is not an array of strings is not modelled. The guard on line 65 always holds, because the value is always an array. The `i18next.init` options (`preload`, backend `loadPath`) belong to the engine and are not modelled.
- `Helper.LocaleHelper.T`: any falsy `opts` is modelled as a missing one, and `User.get('lang')` as an optional string.
- Locking is a recorded journal, not concurrency control. Concurrent requests are not modelled.
- The browser bootstrap (`bundles/locale/public/js/bootstrap.ts` and `.js`) is not modelled. Its only computation is the last-token rule, already covered by the `Strings.LastToken` lemmas.
