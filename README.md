# autologin, modelled in Dafny

autologin is a small web tool that moves a login from one browser tab to another.
The user picks a configuration: one localStorage key, one cookie, or "all" data.
The tool then produces a bookmarklet, code A. Run in the logged-in page, code A
reads the chosen data and builds a second bookmarklet, code B. Code A then puts
code B on the clipboard, falling back to a download or the console. Run in
the other page, code B writes the data back and navigates to the captured
address. Around this the application keeps three lists in localStorage:
  - a history of generation attempts;
  - the user's custom configurations;
  - the order the user dragged the configurations into.

It also keeps a queue of error toasts, and a form that creates custom
configurations.

This project models that core:

| file | module | what it holds |
|---|---|---|
| `types.dfy` | `Types` | the records of `src/types/index.ts` |
| `text.dfy`, `seqs.dfy`, `wrappers.dfy` | `Text`, `Seqs`, `Wrappers` | JavaScript's `trim`, `split`, `startsWith` and global `replace`; `filter`; `Option` |
| `code_generator.dfy` | `CodeGenerator` | `CodeGenerator.generate`: the templates and their placeholders |
| `code_generator_hook.dfy` | `CodeGeneratorHook` | `useCodeGenerator`: its script, its copy helpers, its state and its history bookkeeping; the page's reuse of a history entry |
| `clipboard.dfy` | `ClipboardManager` | `copy`, `fallbackCopy`, `showManualCopyDialog`, `getMinifiedCode` |
| `percent.dfy` | `Percent` | `encodeURIComponent` / `decodeURIComponent`, per section 2.1 of RFC 3986 |
| `cookies.dfy` | `Cookies` | `document.cookie` reads and writes, per sections 4.2.1, 5.2.2, 5.2.4 and 5.3 of RFC 6265 |
| `extractor.dfy`, `injector.dfy`, `round_trip.dfy` | `Extractor`, `Injector`, `RoundTrip` | what code A and code B do with a page's storage and cookies, and the round trip between them |
| `local_storage.dfy` | `Persistence` | `useLocalStorage`: a value mirrored under a localStorage key |
| `history.dfy`, `custom_configs.dfy`, `config_order.dfy`, `error_handler.dfy` | `History`, `CustomConfigs`, `ConfigOrder`, `ErrorHandler` | the four stores |
| `presets.dfy`, `config_modal.dfy` | `Presets`, `ConfigModal` | the built-in configurations, the merged list and the lookup; the custom-configuration form |

Each part takes the form of its source:
  - **Pure code is modelled as functions.** This covers the string builders, the templates, the percent codec, the cookie parser and the filters.
  - **Stateful hooks are modelled as classes.** Each hook that updates state in place becomes a class with fields and `modifies` clauses: `LocalStorageCell`, `HistoryStore`, `CustomConfigStore`, `ConfigOrderStore`, `ErrorQueue`, `CodeGeneratorHook`, `CustomConfigModal` and the clipboard's `Document`.
  - **Loops are modelled as methods with loop invariants.** Each method is proved against the function that specifies it. This covers the capture loops of code A, the write loops of code B and the rank-map loop of `updateConfigOrder`.

These are parameters of the model:
  - the browser: whether storage can be used, what `execCommand` answers, whether a download throws;
  - the clock: `Date.now()` and the ISO timestamp;
  - `Math.random`;
  - JSON, as a `Codec`. `Persistence.Faithful` states what its round trip requires.

The model follows the code as written, and models the evidently intended
behaviour beside it where the two differ:
  - Code A reads a cookie's value as `split('=')[1]`, the text between the first
    and the second `=`. The tool exists to carry a login over unchanged, so a
    value with an `=` of its own (padded base64, say) is meant to arrive whole.
    `Extractor.ReadCookie` and `Extractor.CaptureStep` take the code's cut.
    `Extractor.IntendedReadCookie` and `Extractor.IntendedCaptureStep` take
    everything after the first `=`.
  - `CodeGenerator.generate` hands the key to `replace` as a replacement string,
    where `$&`, `$$`, `` $` `` and `$'` are expanded. `CodeGenerator.ExtractorCode`
    does the same. `CodeGenerator.IntendedExtractorCode` inserts the key as it is.

Both are logged under "Findings" below.

## Model

| member | source | states |
|---|---|---|
| Text.ReplaceGlobalLiteral | src/utils/codeGenerator.ts:27 | with a replacement free of `$`, JavaScript's global `replace` is the literal replacement |
| Text.ReplaceGlobalMatch | src/utils/codeGenerator.ts:27 | with the replacement `$&`, every match is put back, so the text comes out unchanged |
| CodeGenerator.FillIsReplace | src/utils/codeGenerator.ts:27 | a literal global replacement of a placeholder equals filling that hole of the template, when the fixed text cannot form the placeholder; JavaScript's `replace` does the same for a text without `$` |
| CodeGenerator.ReplaceBothIsRender | src/utils/codeGenerator.ts:27 | the two chained literal replacements of the extractor fill both holes of the template; JavaScript's do too when neither the source's name nor the key holds `$` |
| CodeGenerator.RenderLeavesNoPlaceholder | src/utils/codeGenerator.ts:27 | once filled with text free of `{`, no `{source}` or `{key}` is left |
| CodeGenerator.ExtractorCode | src/utils/codeGenerator.ts:24-27 | "all" takes the template verbatim; in single mode, for a key without `$`, it is the template with `{source}` as the source's name and `{key}` as `config.key \|\| ''` |
| CodeGenerator.IntendedExtractorCode | src/utils/codeGenerator.ts:24-27 | the template filled with the key as it is, for every key; it agrees with `ExtractorCode` on every key without `$` |
| CodeGenerator.InjectorCode | src/utils/codeGenerator.ts:29-31 | "all" takes the template verbatim; single mode replaces only `{source}`, and the injector has no `{key}` |
| CodeGenerator.SingleModeFillsPlaceholders | src/utils/codeGenerator.ts:16-31 | in single mode, for a key without `{`, no placeholder survives in code B or in the intended code A, nor in code A as written when the key also has no `$` |
| CodeGenerator.DollarKeyKeepsPlaceholder | src/utils/codeGenerator.ts:27 | for the key `$&`, code A as written still holds `{key}`, and the intended code A does not |
| CodeGenerator.MissingKeyMismatch | src/utils/codeGenerator.ts:27-33 | without a key, code A is the script for the empty key `''` while code B's data is that of the key "undefined", and that data differs from the empty key's |
| CodeGenerator.GenerateShape | src/utils/codeGenerator.ts:34-36 | the script opens with `(function(){` and the extractor, and ends with the clipboard helpers, `f(b);` and `return '✅完成'})()` |
| CodeGenerator.Bookmarklet | src/utils/codeGenerator.ts:33-36 | code B opens by declaring the data object (`d`, or the single-key record) and ends by setting `location.href` after 500 ms to `Destination(config)`, which is `d.u` in "all" mode and `u` in single-key mode |
| CodeGenerator.RenderLength | src/hooks/useCodeGenerator.ts:34 | a filled template is as long as its fixed text plus each hole times the text put in it |
| CodeGenerator.KeyRecoverable | src/hooks/useCodeGenerator.ts:34 | two keys that fill a key hole to the same text are the same key |
| CodeGeneratorHook.ScriptDependsOnSourceAndKey | src/hooks/useCodeGenerator.ts:31-35 | the script depends only on the source and, outside "all" mode, on the key as interpolated |
| CodeGeneratorHook.ScriptDeterminesKey | src/hooks/useCodeGenerator.ts:34 | conversely, two single-key configurations of one source that share a script share the interpolated key |
| CodeGeneratorHook.MissingKeyIsUndefined | src/hooks/useCodeGenerator.ts:34 | a missing key gives the script for the key "undefined" |
| CodeGeneratorHook.ScriptEndsWithHelpers | src/hooks/useCodeGenerator.ts:28-35 | both scripts end with the helpers `f`/`g`/`h`, then `f(b)` and the return |
| CodeGeneratorHook.HookRoute | src/hooks/useCodeGenerator.ts:28 | the clipboard is reached exactly when the interface is usable or `execCommand` copies; otherwise the text becomes a download, or goes to the console when the download throws |
| CodeGeneratorHook.HelpersAgree | src/hooks/useCodeGenerator.ts:28 | the hook's helpers reach the clipboard in the same browsers as `copy` and `getMinifiedCode`, never drop the text, and differ from `getMinifiedCode` only by the download |
| CodeGeneratorHook.Outcome | src/hooks/useCodeGenerator.ts:40-50 | the history entry: the script and success, or the empty code, failure and the error's message (`代码生成失败` for a non-Error) |
| CodeGeneratorHook.CodeGeneratorHook.constructor | src/hooks/useCodeGenerator.ts:12-16 | no code, not generating, no configuration selected |
| CodeGeneratorHook.CodeGeneratorHook.GenerateCode | src/hooks/useCodeGenerator.ts:18-56 | the configuration is selected; on success the script is published and one success entry is prepended to the history; on a throw one failure entry is prepended and the throw passes on; the flag ends false |
| CodeGeneratorHook.UseHistoryRecord | src/app/page.tsx:84-89 | the record's configuration is looked up in presets plus custom configurations and generated again; an unknown id changes nothing |
| CodeGeneratorHook.ReusedPresetRegenerates | src/app/page.tsx:84-89 | reusing the record of a preset regenerates exactly the recorded script |
| ClipboardManager.CopyRoute | src/utils/clipboardManager.ts:7-40 | `copy` reaches the clipboard exactly when the interface is usable or `execCommand` copies; it drops the text exactly when neither holds and `execCommand` refuses |
| ClipboardManager.MinifiedRoute | src/utils/clipboardManager.ts:2-5 | the in-script helpers reach the clipboard under the same condition, and otherwise print the text to the console |
| ClipboardManager.CopyAndHelpersAgree | src/utils/clipboardManager.ts:2-40 | `copy` and the helpers agree on reaching the clipboard; only `copy` can drop the text |
| ClipboardManager.Document.ShowManualCopyDialog | src/utils/clipboardManager.ts:42-75 | a dialog whose markup was built around the text is appended to the body; nothing else changes |
| ClipboardManager.Document.FallbackCopy | src/utils/clipboardManager.ts:23-40 | the result is `execCommand`'s; the body is unchanged unless it throws, when the textarea stays and the dialog follows it |
| ClipboardManager.Document.Copy | src/utils/clipboardManager.ts:7-21 | true exactly on the clipboard routes; the clipboard and the body change as the route says |
| Percent.Decode | src/hooks/useCodeGenerator.ts:32-34 | `decodeURIComponent` returns the empty text only for the empty input |
| Percent.DecodeEncode | src/hooks/useCodeGenerator.ts:32-34 | `decodeURIComponent(encodeURIComponent(s)) == s` for every text |
| Percent.EncodeSafeForCookie | src/hooks/useCodeGenerator.ts:32-34 | an encoded value has no `;`, no `=` and no whitespace, and is empty only for the empty text |
| Cookies.SplitHeader | src/hooks/useCodeGenerator.ts:32-34 | splitting a well-formed Cookie header on `;` gives one piece per cookie |
| Cookies.HeaderPieceTrim | src/hooks/useCodeGenerator.ts:32-34 | each piece trims to its cookie's `name=value` |
| Cookies.Put | src/hooks/useCodeGenerator.ts:32-34 | the store keeps its length or gains the cookie at the end; the new cookie is in it and nothing else is new |
| Cookies.PutKeyed | src/hooks/useCodeGenerator.ts:32-34 | after a put, the store holds the new cookie and every other slot's cookie, and still one cookie per slot |
| Cookies.InjectorAssignmentParsed | src/hooks/useCodeGenerator.ts:32-34 | code B's `k=encodeURIComponent(v); path=/; max-age=86400` parses as cookie `k` with the encoded value, path "/" and an expiry 86400 seconds away |
| Cookies.InjectorAssignmentStored | src/hooks/useCodeGenerator.ts:32-34 | that assignment puts exactly that cookie into the store |
| Extractor.FindPiece | src/hooks/useCodeGenerator.ts:34 | the first piece whose trimmed text starts with `key=`, or none when no piece does |
| Extractor.SecondField | src/hooks/useCodeGenerator.ts:34 | `split('=')[1]` has no `=` and is a prefix of the value, cut at the value's first `=` |
| Extractor.SecondFieldCutsPadding | src/hooks/useCodeGenerator.ts:34 | for a value ending in `=`, `split('=')[1]` loses the `=` |
| Extractor.ValueField | src/hooks/useCodeGenerator.ts:34 | the value is everything after the piece's first `=` |
| Extractor.CutValue | src/hooks/useCodeGenerator.ts:34 | what `split('=')[1]` keeps of a value: a prefix of it without `=`, the whole value when it has no `=` |
| Extractor.SecondFieldOfPair | src/hooks/useCodeGenerator.ts:34 | after a name without `=`, `split('=')[1]` is the value's part before its own first `=` |
| Extractor.ReadCookie | src/hooks/useCodeGenerator.ts:34 | no piece named `key` reads as nothing found; otherwise the piece's `split('=')[1]` decoded, or a throw when it cannot be decoded |
| Extractor.IntendedReadCookie | src/hooks/useCodeGenerator.ts:34 | the same read with everything after the first `=` decoded |
| Extractor.ReadsAgree | src/hooks/useCodeGenerator.ts:34 | the two reads agree whenever the found value holds no `=` of its own |
| Extractor.ExtractSingle | src/hooks/useCodeGenerator.ts:34 | code A captures exactly when the value is present and non-empty: for localStorage the stored value, for cookies the value `ReadCookie` finds for the key, the captured value being exactly that read; localStorage is used only for the name "localStorage", every other source reads cookies; a throwing read (and a cookie read that throws while decoding) stops the script |
| Extractor.StorageCapture | src/hooks/useCodeGenerator.ts:32 | `d.l` holds every localStorage entry whose key is non-empty and not `__proto__` (that assignment is ignored), or nothing when storage cannot be read |
| Extractor.CaptureStorage | src/hooks/useCodeGenerator.ts:32 | the storage loop computes `StorageCapture` |
| Extractor.FieldsAsWritten | src/hooks/useCodeGenerator.ts:32 | `p[0]`/`p[1]` are the name and the value cut at its second `=` |
| Extractor.Fields | src/hooks/useCodeGenerator.ts:32 | the trimmed piece is the name, `=`, and the value |
| Extractor.CaptureStep | src/hooks/useCodeGenerator.ts:32 | one turn of the `forEach`: a throw exactly when `p[0]` and `p[1]` are non-empty and `p[1]` cannot be decoded; otherwise the keys are the old ones plus `p[0]` when it stores (both non-empty, name not `__proto__`), holding `p[1]` decoded, and the other values stay |
| Extractor.IntendedCaptureStep | src/hooks/useCodeGenerator.ts:32 | the turn with the whole value after the first `=`: a throw exactly when that value cannot be decoded; otherwise the keys are the old ones plus the name when it stores (name and whole value non-empty, name not `__proto__`), holding the whole value decoded, and the other values stay |
| Extractor.CaptureStepsAgree | src/hooks/useCodeGenerator.ts:32 | the two turns agree whenever the value holds no `=` of its own |
| Extractor.CaptureCookies | src/hooks/useCodeGenerator.ts:32 | the cookie `forEach` computes `CookieCapture`; a decoding throw ends it, keeping what was captured |
| Extractor.ExtractAll | src/hooks/useCodeGenerator.ts:32 | code A in "all" mode captures both stores and the address |
| Injector.InjectSingle | src/hooks/useCodeGenerator.ts:34 | code B writes localStorage for the name "localStorage" and otherwise the cookie at "/"; it always navigates to the captured address |
| Injector.WrittenBefore | src/hooks/useCodeGenerator.ts:32 | the entries whose keys come before the first failing write in `Object.keys` order, all of them when no write fails |
| Injector.WriteStorage | src/hooks/useCodeGenerator.ts:32 | the loop writes the captured entries over the target's storage in key order; a throw ends it and the writes made before it stay |
| Injector.WriteCookies | src/hooks/useCodeGenerator.ts:32 | the loop writes each captured cookie at "/" and keeps every other slot |
| Injector.InjectAll | src/hooks/useCodeGenerator.ts:32 | code B in "all" mode: the storage writes up to the first that throws (all of them when none does), then the cookies, then the captured address |
| RoundTrip.SingleStorageRoundTrip | src/hooks/useCodeGenerator.ts:34 | a value captured from localStorage is written by code B where code A finds it again |
| RoundTrip.SingleCookieRoundTrip | src/hooks/useCodeGenerator.ts:34 | a value captured from a cookie is written by code B as a cookie that code A reads back as the same value, provided the key is a cookie-name token, the target jar is well formed with one cookie per name and path, and the target has no cookie of that name on a path other than "/" |
| RoundTrip.ReadFirstNamed | src/hooks/useCodeGenerator.ts:34 | on a well-formed header, code A decodes the first cookie with the key's name, its value cut before the value's own first `=`; the intended read decodes the whole value |
| RoundTrip.CaptureOfJar | src/hooks/useCodeGenerator.ts:32 | `d.c` overlays the decoded cookies in header order, each value cut before its own first `=` and `__proto__` skipped, so later duplicates win |
| RoundTrip.CapturedNames | src/hooks/useCodeGenerator.ts:32 | over a well-formed jar, `d.c`'s keys are cookie names other than `__proto__` and its values are non-empty |
| RoundTrip.OverlayKey | src/hooks/useCodeGenerator.ts:32 | the overlay holds a key exactly when the start map does or a cookie other than `__proto__` has that name |
| RoundTrip.OverlayValue | src/hooks/useCodeGenerator.ts:32 | with distinct names, each cookie not named `__proto__` maps to its decoded cut value |
| RoundTrip.InjectedJarReadsBack | src/hooks/useCodeGenerator.ts:32 | a store made of code B's cookies reads back as the captured map |
| RoundTrip.AllRoundTrip | src/hooks/useCodeGenerator.ts:32 | captured, injected into empty stores and captured again: the cookies come back the same, and so do the storage entries written before the first failing write (all of them when none fails) |
| Persistence.Loaded | src/hooks/useLocalStorage.ts:9-21 | the parse of a present, non-empty, parseable stored text; otherwise the current value |
| Persistence.SavedIsLoaded | src/hooks/useLocalStorage.ts:9-29 | with a faithful codec, a value saved is the value loaded next |
| Persistence.LocalStorageCell.constructor | src/hooks/useLocalStorage.ts:5-6 | the initial value, not yet on the client |
| Persistence.LocalStorageCell.Mount | src/hooks/useLocalStorage.ts:9-21 | on the client, holding `Loaded` of the stored text |
| Persistence.LocalStorageCell.SetValue | src/hooks/useLocalStorage.ts:23-34 | the value is set; storage holds its serialisation under the key when writable, and no other key changes |
| Persistence.LocalStorageCell.Update | src/hooks/useLocalStorage.ts:23-34 | the functional form applies `fn` to the held value; when `fn` throws nothing changes |
| History.Prepend | src/hooks/useHistory.ts:30 | the record first, then the first 49 earlier records in their order |
| History.AddAllKeepsNewest | src/hooks/useHistory.ts:30 | after many additions, the list is the newest records first, cut at 50 |
| History.WithoutRemovesExactly | src/hooks/useHistory.ts:39-43 | every record with the id goes and the rest keep their order; an unknown id changes nothing |
| History.SameMillisecondRemovedTogether | src/hooks/useHistory.ts:19-41 | two records of one millisecond share an id and go together |
| History.DistinctTimesDistinctIds | src/hooks/useHistory.ts:19 | records of different milliseconds have different ids |
| History.HistoryStore.constructor | src/hooks/useHistory.ts:6-9 | empty, under "autologin-history" |
| History.HistoryStore.AddToHistory | src/hooks/useHistory.ts:11-33 | the record built from the arguments is prepended and saved |
| History.HistoryStore.ClearHistory | src/hooks/useHistory.ts:35-37 | the list is empty and saved |
| History.HistoryStore.RemoveFromHistory | src/hooks/useHistory.ts:39-44 | the records with the id are removed and the list saved |
| CustomConfigs.NewCustomConfig | src/hooks/useCustomConfigs.ts:13-18 | the given fields, with id `custom-<ms>`, `isCustom` true and `createdAt` overriding them |
| CustomConfigs.CustomIdsDistinct | src/hooks/useCustomConfigs.ts:15 | configurations added at different milliseconds have different ids |
| CustomConfigs.Overlay | src/hooks/useCustomConfigs.ts:26 | each property the patch holds replaces the configuration's, and each it lacks is kept |
| CustomConfigs.Updated | src/hooks/useCustomConfigs.ts:23-29 | same length and order; matching entries get the patch, the others stay |
| CustomConfigs.UpdateKeepsIds | src/hooks/useCustomConfigs.ts:23-29 | an unknown id changes nothing; a patch without an id keeps every id |
| CustomConfigs.UpdateIdempotent | src/hooks/useCustomConfigs.ts:23-29 | the same update sent twice is the update sent once, unless it moves the configuration to another id |
| CustomConfigs.DeleteUndoesAdd | src/hooks/useCustomConfigs.ts:19-32 | deleting what was just added restores the list |
| CustomConfigs.DeleteRemovesExactly | src/hooks/useCustomConfigs.ts:31-33 | exactly the entries with the id go, and the rest keep their order |
| CustomConfigs.CustomConfigStore.AddCustomConfig | src/hooks/useCustomConfigs.ts:10-21 | the new configuration is appended, saved and returned |
| CustomConfigs.CustomConfigStore.UpdateCustomConfig | src/hooks/useCustomConfigs.ts:23-29 | the list becomes `Updated` and is saved |
| CustomConfigs.CustomConfigStore.DeleteCustomConfig | src/hooks/useCustomConfigs.ts:31-33 | the list becomes `Deleted` and is saved |
| ConfigOrder.Ranks | src/hooks/useConfigOrder.ts:13-16 | the map's keys are exactly the ids of the list |
| ConfigOrder.RanksAreLastPositions | src/hooks/useConfigOrder.ts:14-16 | each id maps to its last position |
| ConfigOrder.RankIsPosition | src/hooks/useConfigOrder.ts:14-16 | with distinct ids, each id maps to its position |
| ConfigOrder.OrderOf | src/hooks/useConfigOrder.ts:13-16 | the `forEach` loop builds `Ranks` |
| ConfigOrder.Insert | src/hooks/useConfigOrder.ts:25-28 | inserting keeps the list ordered by rank and adds exactly that element |
| ConfigOrder.SortByRank | src/hooks/useConfigOrder.ts:24-28 | the result is ordered by rank (missing ids as 999) and a permutation of the input |
| ConfigOrder.SortStable | src/hooks/useConfigOrder.ts:24-28 | elements of one rank keep their input order |
| ConfigOrder.SortRestoresOrder | src/hooks/useConfigOrder.ts:11-31 | after recording a list with distinct ids, sorting any permutation of it gives the list back |
| ConfigOrder.ConfigOrderStore.UpdateConfigOrder | src/hooks/useConfigOrder.ts:11-20 | the stored map becomes `Ranks` of the list |
| ConfigOrder.ConfigOrderStore.GetSortedConfigs | src/hooks/useConfigOrder.ts:22-31 | the input sorted by the stored ranks, with nothing changed |
| ErrorHandler.ErrorId | src/hooks/useErrorHandler.ts:11 | the id is made of base-36 characters whenever the random part is |
| ErrorHandler.CloseByIdAsWritten | src/hooks/useErrorHandler.ts:17-19 | filtering by timestamp with an id removes nothing when every timestamp holds `-` and the id is base 36 |
| ErrorHandler.CloseByIdKeepsToast | src/hooks/useErrorHandler.ts:17-19 | a concrete toast whose close button removes nothing |
| ErrorHandler.CloseByIdRemovesToast | src/hooks/useErrorHandler.ts:17-19 | filtering by id removes the toast |
| ErrorHandler.ErrorQueue.constructor | src/hooks/useErrorHandler.ts:5 | no toasts |
| ErrorHandler.ErrorQueue.AddError | src/hooks/useErrorHandler.ts:8-15 | the new toast is appended and the earlier ones stay |
| ErrorHandler.ErrorQueue.RemoveError | src/hooks/useErrorHandler.ts:17-19 | the toasts with that timestamp go, the rest keep their order |
| ErrorHandler.ErrorQueue.RemoveErrorById | src/hooks/useErrorHandler.ts:17-19 | the toasts with that id go, the rest keep their order |
| ErrorHandler.ErrorQueue.CloseToast | src/app/page.tsx:111 | closing a toast removes it |
| ErrorHandler.ErrorQueue.ClearErrors | src/hooks/useErrorHandler.ts:21-23 | no toasts |
| Presets.PresetTable | src/constants/presets.ts:3-35 | four presets with distinct ids; only "all" lacks a key; every other key is its id; the sources; no `isCustom` or `createdAt` |
| Presets.FindConfig | src/app/page.tsx:85 | the first configuration with the id, or none when no configuration has it |
| Presets.FindInPrefix | src/app/page.tsx:39-85 | what is found in the front of a list is found in the whole list |
| Presets.PresetRecordsReuse | src/app/page.tsx:39-89 | a record of a preset finds that preset whatever the custom configurations are |
| Presets.DeletedConfigNotReused | src/app/page.tsx:84-89 | a record whose configuration is gone finds nothing |
| ConfigModal.InitialForm | src/components/CustomConfigModal.tsx:19-25 | the blank form without a configuration; otherwise its name and source, its key and description or "" when missing, and its icon unless missing or empty, when the default icon is used |
| ConfigModal.Submission | src/components/CustomConfigModal.tsx:27-37 | nothing for a whitespace-only name; otherwise the name trimmed, the key trimmed outside "all" and absent in it, the description trimmed, and the source and icon as given |
| ConfigModal.ResetFormRefused | src/components/CustomConfigModal.tsx:29-45 | the reset form cannot be saved |
| ConfigModal.EditRoundTrip | src/components/CustomConfigModal.tsx:19-37 | for a form that can be saved and has a non-empty icon, reopening the saved configuration and saving it again gives the same fields |
| ConfigModal.EmptyIconFallback | src/components/CustomConfigModal.tsx:23-35 | a configuration saved with an empty icon reopens with the default icon "🔧", so saving it again stores "🔧" and not the empty icon: the round trip fails there |
| ConfigModal.CustomConfigModal.HandleSubmit | src/components/CustomConfigModal.tsx:27-47 | a named form is added to the custom configurations, then the form resets and the modal closes; otherwise nothing changes |

## Left out

- Rendering, styling, timers and React scheduling are not modelled. This covers the toasts' auto-close, the copy button, the help modal and the scroll handler. Each hook call is one sequential step. The 300 ms delay of `generateCode` and the 500 ms delay before navigation are not modelled.
- `Persistence.LocalStorageCell.Update`: applies `fn` to the value the cell holds at the call, not to a value captured by an earlier render. A stale closure, and two updates batched in one render, are not modelled.
- `Persistence.LocalStorageCell.SetValue`: a failed write is one `writable` flag. A write that fails for some keys only (storage quota) is not modelled.
- The check for a server render (`typeof window`) is not modelled. The model always runs in the browser.
- JSON is a `Codec` parameter. Code B's `JSON.stringify(v)` embedding is taken to deliver `v` unchanged: `Injector` receives the captured values directly.
- Whether the generated JavaScript is valid is not modelled, nor what it does once parsed. Code A and code B are specified separately by `Extractor` and `Injector`. A key or address holding a quote would break the script; that escaping is not modelled. So is `CodeGenerator.generate`'s code B, which declares `var {u:…}` in single mode and is not valid JavaScript.
- Cookies follow RFC 6265 only as far as code A and code B use them. Domain, `Secure`, `HttpOnly`, `Expires` and path matching on read are not modelled. The header lists every cookie of the store in store order, not sorted by path length.
- `CodeGeneratorHook.CodeGeneratorHook.GenerateCode`: a throw is modelled only from the awaited delay. A throw from `addToHistory` itself is not modelled: in the success branch it would record a second, failed entry.
- `ClipboardManager.Document.ShowManualCopyDialog`: the dialog keeps the text as it went into `innerHTML`. How the HTML parser reads that markup is not modelled: character references in the text are decoded, and a `</textarea>` in it ends the textarea early.
- `Percent.Encode`: Dafny's characters are Unicode scalar values, so a string with a lone surrogate cannot be formed. The `URIError` that `encodeURIComponent` throws on one is not modelled.
- `ConfigOrder.Ranks`: an id `__proto__` is kept in the map, where the object `newOrder` ignores that assignment. Neither a preset id nor a custom id (`custom-` and digits) can be `__proto__`. The same holds for `ConfigOrder.OrderOf`.
- `CodeGenerator.ExtractorCode`: the filled template is stated only for keys without `$`. For other keys it is JavaScript's `replace` with its `$` patterns; `CodeGenerator.DollarKeyKeepsPlaceholder` shows one such key.
- `CodeGenerator.FillIsReplace`: JavaScript's `replace` is tied to the filled template only for texts without `$`.
- `CodeGenerator.ReplaceBothIsRender`: JavaScript's two replacements are tied to the filled template only when neither the source's name nor the key holds `$`.
- `CodeGenerator.SingleModeFillsPlaceholders`: for code A as written, stated only for keys without `$`.
- `ClipboardManager.Document.Copy`: the manual-copy dialog is one element of the body. Its buttons, focus and selection are not modelled.
- The download that `h` builds (`Blob`, object URL, anchor click) is one outcome of `HookRoute`, not a sequence of DOM steps.
- The drag-and-drop reordering of src/components/ConfigSelector.tsx is not part of this model. It calls `arrayMove` from a library whose source is not available.
- The theme hook and the deployment configuration are not part of this model.
- `ClipboardManager.copy` and `CodeGenerator.generate` have no caller in the repository. The page uses the hook's script. Both are modelled anyway.

## Findings

| source | as written | input that shows it | evidently intended | confidence | as-written member | corrected member |
|---|---|---|---|---|---|---|
| src/hooks/useCodeGenerator.ts:32-34 | a cookie's value is read as `c.split('=')[1]`, the text between the first and the second `=` | a cookie `t=YWJj=` (padded base64): the value is read as `YWJj` | the value is everything after the first `=` | not executed | Extractor.SecondFieldCutsPadding | Extractor.IntendedReadCookie |
| src/utils/codeGenerator.ts:27 | the key is passed to `replace` as a replacement string, so `$&`, `$$`, `` $` `` and `$'` in it are expanded | the key `$&`: code A keeps `{key}` and reads the item named `{key}` | the key is inserted as it is | not executed | CodeGenerator.DollarKeyKeepsPlaceholder | CodeGenerator.IntendedExtractorCode |
| src/hooks/useErrorHandler.ts:17-19 | `removeError` filters by timestamp, and the page's close button passes `error.id` (src/app/page.tsx:111) | a toast with id `1700000000000abc` and timestamp `2023-11-14T22:13:20.000Z`: closing it removes nothing | closing a toast removes that toast | not executed | ErrorHandler.CloseByIdKeepsToast | ErrorHandler.ErrorQueue.CloseToast |
