# APK editor: GUI change compiler, resource patcher and handler decisions

A model of the core of the APK editor web application (`app.py`). It covers:

- **The GUI change compiler** (`GuiCompiler`). `generate_gui_modifications` turns a
  free-text description and an optional colour-scheme name into four dictionaries
  (`colors`, `layouts`, `strings`, `images`). The dictionaries are Python's
  insertion-ordered `dict`, modelled in `Dict`. A recognised scheme seeds `colors`.
  Six keyword triggers then run in a fixed order on the lower-cased text; each one
  is an `elif` chain over modifier words.
- **The resource patcher** (`GuiPatch`). `apply_gui_modifications` rewrites
  `colors.xml`, `strings.xml` and every `.xml` file in the layout directory with text
  replacements. Each file is read in text mode first, so its line endings are
  normalised even where no replacement applies. A file or directory that does not
  exist is skipped.
- **Code generation** (`CodeGen`):
  - the choice between the Gemini reply and the local fallback;
  - the fallback header;
  - the keyword dispatch to one of six templates.
- **Saving the Gemini key** (`EnvKey`): the `.env` upsert done by `save_gemini_key`.
- **The request handlers' decisions** (`Routes`): for `save_resource`, `compile_apk`,
  `sign_apk` and `modify_gui`, what they reply or flash, where they redirect, and
  which project-metadata fields they record.

Python's string built-ins are modelled in `Text`:

- `in`, `startswith`, `lower` and `strip`;
- `replace` as a left-to-right scan without overlap;
- `split` and `join` on one separator;
- reading a file in text mode, where `\r\n` and a lone `\r` both become `\n`
  (`Text.ReadText`);
- a first-match lookup in an ordered table. It is the reference semantics for every
  `elif` chain.

Collaborators are parameters, each holding what the collaborator returned: the
clock, the environment, the HTTP exchange, the APK editor, the file manager and the
file system.

Two places in the code do not do what they evidently mean to do (see "## Findings").
For each of them the model has the code as written, a lemma exhibiting the problem,
and a corrected definition with the intended property proved. `Routes.ModifyGui`
uses the corrected definitions.

Two behaviours of the code are easy to misread; the model follows the code in both:

- `sign_apk` (app.py:611-640) refuses to sign when no compiled file is on disk. It
  does not consult any recorded "compiled" status of the project.
- `generate_code_from_prompt` (app.py:391-466) uses a reply with status 200 and at
  least one candidate even when the generated text is empty. It falls back to the
  local template when:
  - the key is unset or the placeholder (app.py:395-399);
  - the status is not 200 (app.py:457-459);
  - there is no candidate (app.py:454-456);
  - the request raises, the reply cannot be parsed, or any other exception occurs
    (app.py:439-442, 461-466).

  In the model every outcome but the first is the `reply = None` input of
  `CodeGen.GenerateCode`.

Two further facts about `apply_gui_modifications` shape its properties:

- The compiler can produce a `dpad_size` layout entry, but the patcher only reads
  `text_size` (app.py:1083-1090). A `dpad_size` request therefore changes what no
  layout says. It still rewrites every `.xml` layout through the text-mode read
  (app.py:1079-1080, 1092-1093), so a layout with carriage returns gets `\n` line
  endings.
- Applying the same modifications twice gives the same tree as applying them once.
  For the corrected pipeline this holds for every tree, and so for `modify_gui`
  submitted twice with the same request. For the code as written it is proved for
  colours files without `[`, which covers every real resource file.

## Model

| member | source | states |
|---|---|---|
| GuiCompiler.SchemeSeedsColors | app.py:950-963 | a recognised scheme seeds exactly `primary`, `secondary`, `accent` in that order; an empty or unknown scheme seeds nothing |
| GuiCompiler.SchemeStage | app.py:942-963 | before the triggers run, layouts, strings and images are empty, the description is kept, and `colors` is the scheme's table or empty |
| GuiCompiler.SchemeColorsKept | app.py:950-1011 | the scheme's three colours survive every trigger unchanged |
| GuiCompiler.SeedLacksTriggerKeys | app.py:952-963 | no scheme sets a key that a colour trigger owns |
| GuiCompiler.ControlRuleFollowsTable | app.py:968-977 | the knob/control chain is the first match in blue, green, red, orange, setting only `control_color` |
| GuiCompiler.DpadRuleFollowsTable | app.py:979-984 | the d-pad chain is the first match in bigger, larger, smaller, setting only `dpad_size` |
| GuiCompiler.GlowRuleFollowsTable | app.py:986-993 | the glow/light chain is the first match in blue, green, red, setting only `glow_color` |
| GuiCompiler.StatusRuleFollowsTable | app.py:995-1002 | the status chain is the first match in connected, disconnected, setting the string and the colour together |
| GuiCompiler.ButtonRuleFollowsTable | app.py:1004-1011 | the button chain is the first match in blue, green, red, setting only `button_color` |
| GuiCompiler.TextRuleFollowsTable | app.py:1013-1018 | the text chain is the first match in bigger, larger, smaller, setting only `text_size` |
| GuiCompiler.ControlRule | app.py:968-977 | the knob/control trigger leaves `layouts`, `strings`, `images` and the description as they were |
| GuiCompiler.DpadRule | app.py:979-984 | the d-pad trigger leaves `colors`, `strings`, `images` and the description as they were |
| GuiCompiler.GlowRule | app.py:986-993 | the glow/light trigger leaves `layouts`, `strings`, `images` and the description as they were |
| GuiCompiler.StatusRule | app.py:995-1002 | the status trigger leaves `layouts`, `images` and the description as they were |
| GuiCompiler.ButtonRule | app.py:1004-1011 | the button trigger leaves `layouts`, `strings`, `images` and the description as they were |
| GuiCompiler.TextRule | app.py:1013-1018 | the text trigger leaves `colors`, `strings`, `images` and the description as they were |
| GuiCompiler.GenerateGuiModifications | app.py:940-1020 | `images` is always empty and the description is returned as given |
| GuiCompiler.ResultByTriggers | app.py:940-1020 | each output dictionary is the seed followed by the optional assignments of its triggers, in the code's order |
| GuiCompiler.ColorsByTrigger | app.py:966-1011 | each colour key holds its trigger's first-match value when the trigger fires, and is absent otherwise |
| GuiCompiler.LayoutsAndStringsByTrigger | app.py:979-1018 | `dpad_size`, `text_size` and `connection_status` are each set by their own trigger alone |
| GuiCompiler.OnlyKnownKeys | app.py:940-1020 | no key outside the documented ones ever appears |
| GuiCompiler.BlueWinsEverywhere | app.py:968-1011 | when "blue" occurs, every fired colour trigger chooses blue, whatever other colour words occur |
| GuiCompiler.RedNeedsNoBlueOrGreen | app.py:1004-1011 | the button is red exactly when "button" and "red" occur and neither "blue" nor "green" does |
| GuiCompiler.TriggersCompose | app.py:1004-1018 | a blue-button request and a bigger-text request in one description both take effect |
| GuiCompiler.DisconnectedUnreachable | app.py:996-1002 | as written, the status trigger can only ever give "Connected" in green |
| GuiCompiler.StatusStrings | app.py:995-1002 | as written, `strings` is the one "Connected" status entry when the status trigger fires and either word occurs, and empty otherwise |
| GuiCompiler.StatusRuleIntended | app.py:996-1002 | corrected rule: "disconnected" gives Disconnected in red, and "connected" alone gives Connected in green |
| GuiCompiler.GenerateGuiModificationsIntended | app.py:940-1020 | the corrected compiler keeps the description and leaves `images` empty |
| GuiCompiler.DisconnectedReachableIntended | app.py:996-1002 | with the corrected rule, a "disconnected" status request is honoured |
| GuiCompiler.IntendedStatusStrings | app.py:995-1002 | with the corrected rule, `strings` is exactly the one status entry the request asks for, or empty |
| GuiPatch.ColorsInertWithoutPlaceholder | app.py:1036-1043 | as written, the colour loop changes nothing unless the file literally holds `#[0-9A-Fa-f]{6}</color>` |
| GuiPatch.ColorsNeverChangeRealFiles | app.py:1036-1043 | as written, a colours file without `[` is never changed |
| GuiPatch.ButtonColorNotRewritten | app.py:1038-1043 | as written, a red `button_color` declaration stays red when blue is requested |
| GuiPatch.SingleDeclarationKept | app.py:1038-1043 | as written, any one-declaration file keeps its hex value |
| GuiPatch.DeclarationRewritten | app.py:1038-1043 | corrected rewrite: a `#rrggbb` declaration at the front takes the new value, and the scan resumes after it |
| GuiPatch.NoDeclarationUnchanged | app.py:1038-1043 | corrected rewrite: text without the opening tag is left alone |
| GuiPatch.NoDeclarationCreated | app.py:1038-1043 | corrected rewrite: passing over a character creates no declaration of any name there; the output starts with a declaration only if the input did |
| GuiPatch.RewriteDeclarationsIdempotent | app.py:1038-1043 | corrected rewrite: rewriting one name's declarations twice with a `#rrggbb` value is rewriting them once |
| GuiPatch.OneNamePerDeclaration | app.py:1038 | the opening tags of two distinct names without `"` never both match at one place |
| GuiPatch.NoDeclarationInside | app.py:1038-1043 | no declaration of any name starts strictly inside a declaration |
| GuiPatch.RewriteUpTo | app.py:1038-1043 | corrected rewrite: up to the first declaration the text is copied |
| GuiPatch.OtherDeclarationCopied | app.py:1036-1043 | corrected rewrite of one name copies a declaration of another name unchanged |
| GuiPatch.RewriteKeepsSettled | app.py:1036-1043 | rewriting the declarations of one name never disturbs another: a text whose every declaration of `a` holds `va` still does afterwards |
| GuiPatch.ColorIntendedIsRewrite | app.py:1039-1043 | the `in` guard changes nothing: one entry of the corrected loop is the rewrite of that name's declarations |
| GuiPatch.SettledLoopUnchanged | app.py:1036-1043 | corrected loop: a file in which every entry's declarations already hold its value passes through unchanged |
| GuiPatch.LoopKeepsSettled | app.py:1036-1043 | corrected loop: the entries of other names keep a settled name settled |
| GuiPatch.LoopSettlesAll | app.py:1036-1043 | corrected loop: afterwards every declaration of every listed name holds that name's value |
| GuiPatch.ApplyColorsIntendedIdempotent | app.py:1036-1043 | corrected loop: running it twice with the same colour table is running it once |
| GuiPatch.SchemeTable | app.py:950-963 | every scheme's table has distinct plain names and `#rrggbb` values |
| GuiPatch.IntendedColorTable | app.py:940-1018 | the corrected compiler's colours always have distinct plain names and `#rrggbb` values |
| GuiPatch.SingleDeclarationRewritten | app.py:1036-1043 | corrected loop: a one-declaration file takes the requested value |
| GuiPatch.FindCloseSound | app.py:1061-1062 | the lazy `.*?</string>` stops at the first closing tag, and finds none when a line break comes first |
| GuiPatch.FirstCloseAfter | app.py:1061-1062 | for a value with no closing tag and no line break, the match ends right after that value |
| GuiPatch.EntryReplaced | app.py:1056-1065 | an entry at the front takes the new value, and the substitution continues after it |
| GuiPatch.NoEntryUnchanged | app.py:1059-1065 | text without the entry's opening tag is left alone |
| GuiPatch.SingleEntryRewritten | app.py:1056-1065 | a one-entry strings file takes the requested value |
| GuiPatch.FindCloseBlocked | app.py:1061-1062 | a line break before any `<` stops the lazy `.*?</string>`: no match |
| GuiPatch.MultiLineEntryKept | app.py:1056-1065 | an entry whose old value spans lines (and holds no `<`) is left as it is |
| GuiPatch.CarriageReturnEntryKept | app.py:1048-1068 | a one-entry strings file whose old value holds a carriage return keeps that value after the text-mode read; only its line endings change |
| GuiPatch.SubLazyUpTo | app.py:1061-1065 | up to the first match the substitution copies the text |
| GuiPatch.NoEntryCreated | app.py:1061-1065 | passing over a character creates no match there; the output starts with an entry only if the input did |
| GuiPatch.SubLazyIdempotent | app.py:1061-1065 | substituting the same value twice is substituting it once, when neither the value nor the opening tag holds a line break and the value holds no closing tag |
| GuiPatch.ApplyStringIdempotent | app.py:1056-1065 | one entry of the string loop applied twice is applied once, for a name and value without `<` or line break |
| GuiPatch.EnlargeMapping | app.py:1085-1087 | after enlarging, no 14sp or 16sp size remains; a file with neither is unchanged |
| GuiPatch.ShrinkMapping | app.py:1088-1090 | after shrinking, no 16sp or 18sp size remains; a file with neither is unchanged |
| GuiPatch.EnlargeIdempotent | app.py:1085-1087 | enlarging twice is enlarging once |
| GuiPatch.ShrinkIdempotent | app.py:1088-1090 | shrinking twice is shrinking once |
| GuiPatch.EnlargeUndone | app.py:1085-1087 | the reverse mapping restores the file: nothing but the two size attributes changes |
| GuiPatch.ShrinkUndone | app.py:1088-1090 | the reverse mapping restores the file: nothing but the two size attributes changes |
| GuiPatch.RewriteLayoutIdempotent | app.py:1083-1090 | rewriting one layout file is idempotent for every `text_size` value |
| GuiPatch.LayoutsNeedTextSize | app.py:1077-1093 | unless `text_size` is large or small (so with `dpad_size` alone), each `.xml` layout is only read in text mode and written back, other entries are kept, and a directory without carriage returns is unchanged |
| GuiPatch.LayoutSizesMapped | app.py:1077-1093 | with `text_size` large no `.xml` layout is left with a 14sp or 16sp size, and with small none with 16sp or 18sp |
| GuiPatch.ApplyGuiModifications | app.py:1022-1096 | no file or directory is created or deleted, and the layout directory keeps its entries |
| GuiPatch.ApplyGuiModificationsIntended | app.py:1028-1096 | the corrected version differs from the code only in `colors.xml` |
| GuiPatch.NothingToApply | app.py:1028-1096 | empty modifications leave the tree as it was |
| GuiPatch.MissingPartsSkipped | app.py:1028-1093 | a missing file stays missing, and each file changes only through its own non-empty part |
| GuiPatch.LayoutsIdempotent | app.py:1071-1093 | applying the same modifications twice leaves the layout files as applying them once |
| GuiPatch.ColorsFileUntouched | app.py:1028-1046 | as written, a colours file without `[` ends up as the text-mode read gave it: unchanged when it has no carriage return, its line endings normalised otherwise |
| GuiPatch.ColorsTwiceIntended | app.py:1028-1046 | corrected loop: with a colour table, the colours file after a second pass, read in text mode again, is the file after one pass |
| GuiPatch.StringsTwiceOneEntry | app.py:1048-1068 | a strings part of at most one entry, applied twice, leaves the strings file as applying it once |
| GuiPatch.ApplyTwiceOneString | app.py:1022-1096 | as written, modifications with at most one string entry applied twice are applied once, for a colours file without `[` |
| GuiPatch.ApplyTwiceIsApplyOnce | app.py:940-1096 | as written, applying the compiler's output a second time changes nothing more, for a colours file without `[` |
| GuiPatch.ApplyTwiceOneStringIntended | app.py:1022-1096 | corrected pipeline: modifications with a colour table and at most one string entry applied twice are applied once, whatever the colours file holds |
| GuiPatch.ApplyTwiceIsApplyOnceIntended | app.py:940-1096 | corrected pipeline: applying the corrected compiler's output a second time changes nothing more |
| CodeGen.FallbackHeader | app.py:470-472 | the fallback header starts with the fallback banner and contains the timestamp and the original request |
| CodeGen.ChooseTemplateFollowsTable | app.py:488-501 | `ChooseTemplate`: the template `elif` chain is the first-match lookup in the keyword table, generic when no keyword occurs |
| CodeGen.TemplatePriority | app.py:488-501 | `ChooseTemplate`: each template is chosen exactly when one of its words occurs and no earlier template's word does |
| CodeGen.FallbackCode | app.py:468-503 | the fallback output starts with the fallback banner |
| CodeGen.FallbackHasOneTemplate | app.py:468-503 | with distinct template bodies, the output is the header plus the chosen template's body and no other's |
| CodeGen.AiCode | app.py:445-451 | the formatted reply starts with the AI banner and contains the prompt and the generated text |
| CodeGen.BannersExclusive | app.py:445-470 | no text starts with both banners |
| CodeGen.AiOnlyWithKeyAndReply | app.py:391-466 | `GenerateCode`: the output starts with the AI banner exactly when a real key is configured and a usable reply came back, and with the fallback banner otherwise |
| CodeGen.NoKeyMeansFallback | app.py:395-399 | `GenerateCode`: with no key or the placeholder key, the reply is never consulted |
| EnvKey.UpsertLoop | app.py:562-567 | the line loop adds one line to the built list for each line it reads |
| EnvKey.UpsertLoopLines | app.py:562-567 | the line loop keeps what it built and adds, for each line, the new key line if the line assigns the key and the line itself otherwise |
| EnvKey.UpsertLoopFlag | app.py:560-567 | `key_found` ends up set exactly when it started set or some line assigns the key |
| EnvKey.UpsertLines | app.py:558-570 | each key line is replaced, the other lines are kept in place, and one line is appended exactly when none matched |
| EnvKey.UpsertKeepsRecorded | app.py:558-570 | lines that already assign the key, only to this key, are left as they are |
| EnvKey.UpsertLinesRecordsKey | app.py:562-570 | afterwards some line assigns the key, and every key line carries the new key |
| EnvKey.UpsertLinesIdempotent | app.py:558-570 | upserting the same key twice is upserting it once |
| EnvKey.UpsertAppendsOnlyWhenMissing | app.py:562-570 | the line count grows exactly when no line assigned the key, and non-key lines are untouched |
| Text.ReadText | app.py:554-555 | reading in text mode never yields a carriage return |
| Text.ReadTextPlain | app.py:554-555 | a leading text without carriage returns reads back exactly as written |
| Text.ReadTextThenPlain | app.py:1052-1053 | a trailing text without carriage returns that does not start with a line break reads back exactly as written |
| Text.ReadTextKeepsOut | app.py:1052-1053 | reading in text mode brings in no character other than the line break |
| Text.ReadTextBreak | app.py:1052-1053 | a file holding a carriage return reads with a line break |
| EnvKey.ReadEnv | app.py:553-555 | the file is read exactly when it exists, and what is read holds no carriage return |
| EnvKey.SavedLinesReadBack | app.py:549-575 | `UpsertEnv`: the saved file, split into lines, is the upserted lines (or the key line and an empty tail for a new file) |
| EnvKey.UpsertEnvTwice | app.py:557-575 | `UpsertEnv`: upserting the written text again, read back unchanged, gives the same text, for a key without a line break |
| EnvKey.UpsertEnvNoCarriageReturn | app.py:549-575 | the written text holds a carriage return only if the text read or the key does |
| EnvKey.UpsertEnvIdempotent | app.py:549-575 | saving the same key twice, the second save reading the first one's file in text mode, leaves the same file as saving it once, for a key without line break or carriage return |
| EnvKey.LineBreakKeyNotIdempotent | app.py:549-575 | a key with an embedded line break is not idempotent: saving it again grows the file |
| EnvKey.CarriageReturnKeyNotIdempotent | app.py:549-575 | a key with an embedded carriage return is not idempotent: text-mode reading turns it into a line break, and saving again grows the file |
| EnvKey.SaveGeminiKey | app.py:542-578 | a key that is blank after stripping is refused with its message; otherwise the stripped key goes into the environment |
| Routes.Preview | app.py:203 | the preview is the text itself up to 50 characters, and otherwise its first 50 characters followed by "..." |
| Routes.SaveResource | app.py:174-235 | metadata is recorded exactly when a known kind was saved (an image needs a non-empty upload), with exactly the status, path, kind and, for text, the preview; an error flash comes exactly when the save call failed; every branch returns to the editor |
| Routes.Compile | app.py:250-283 | compilation is recorded, and the download page reached, exactly when a path is returned, exists and is at least 1024 bytes; the record holds that size; every other outcome flashes an error |
| Routes.FailedCompileKeepsMetadata | app.py:256-283 | a failed compilation leaves the metadata as it was |
| Routes.JoinPath | app.py:621-622 | the signed path ends with the file name |
| Routes.Sign | app.py:611-640 | signing is recorded exactly when the project exists, the compiled file is on disk and the signer succeeded, and the reply then names `signed.apk`; 404, 400 and 500 each mark their own failure |
| Routes.ModifyGuiOutcome | app.py:891-933 | the change is recorded, with a success flash, exactly when the project exists and the description is not all white space; the record holds the stripped text and the scheme |
| Routes.ModifyGui | app.py:891-918 | a refused request changes no file, and no file or directory is created or removed |
| Routes.ModifyGuiAsWritten | app.py:887-938 | as written, a refused request changes no file, and no file or directory is created or removed |
| Routes.DisconnectedRequestReportedAsWritten | app.py:896-928 | as written, a "disconnected" status request records the change but writes "Connected" into a one-entry strings file |
| Routes.DisconnectedRequestReportedIntended | app.py:896-928 | corrected pipeline: a "disconnected" status request rewrites a one-entry strings file to Disconnected and records the change |
| Routes.CarriageReturnStatusKeptAsWritten | app.py:896-928 | as written, when the old status value holds a carriage return the change is recorded but the value stays, with `\n` line endings |
| Routes.CarriageReturnStatusKeptIntended | app.py:896-928 | corrected pipeline: when the old status value holds a carriage return the change is recorded but the value stays, with `\n` line endings |
| Routes.ModifyGuiTwice | app.py:914-918 | corrected pipeline: submitting the same change request twice leaves the resource tree as submitting it once |
| Routes.ModifyGuiAsWrittenTwice | app.py:914-918 | as written, submitting the same change request twice leaves the resource tree as submitting it once, for a colours file without `[` |

## Left out

- Flask plumbing is not modelled: request parsing, templates, redirects as HTTP and flashing as a session store. Redirect targets and flashed messages are values.
- Exception handlers are not modelled. This covers every route's `except` branch, `apply_gui_modifications` returning False on an I/O error, and the Gemini request raising. A raising request is folded into the `reply = None` input of `CodeGen.GenerateCode`.
- Routes.ModifyGuiOutcome: the "Failed to apply GUI modifications" reply is not modelled. The model cannot fail to apply, so that reply is never reached.
- Routes.ModifyGui: uses the corrected compiler and colour rewrite (see "## Findings"), and so do `Routes.DisconnectedRequestReportedIntended` and `Routes.ModifyGuiTwice`. The handler as written is `Routes.ModifyGuiAsWritten`, which calls `GuiCompiler.GenerateGuiModifications` and `GuiPatch.ApplyGuiModifications`.
- Reference-image handling in `modify_gui` is left out: saving uploads under random names, `secure_filename` and `uuid`. The paths are passed in, and the compiler ignores them, as the code does.
- The clock is a `timestamp` / `now` parameter.
- CodeGen.GenerateCode: the timestamp is the one clock reading of either path. The Gemini request body, URL and JSON decoding are not modelled; the reply text is a parameter.
- CodeGen.FallbackCode: the six template texts are a parameter `body`. Their fixed contents are not modelled.
- Text.Lower: only lower-cases ASCII letters, not the rest of Unicode.
- GuiPatch.SubLazy: models the string name as literal text, although `re.sub` compiles it into the pattern. A name containing regular-expression characters, for example `.`, is not modelled. Backslashes and group references in the replacement value are not interpreted either.
- GuiPatch.ApplyLayouts: a directory entry whose name ends in `.xml` but is itself a directory is treated as a file. The code would fail to open it.
- EnvKey.UpsertEnvIdempotent: holds only for keys without a line break or carriage return. `EnvKey.LineBreakKeyNotIdempotent` and `EnvKey.CarriageReturnKeyNotIdempotent` show the code is not idempotent otherwise. Reading translates newlines as text mode does (`Text.ReadText`). Writing is modelled as on POSIX, where text mode writes `\n` unchanged.
- GuiPatch.ApplyTwiceIsApplyOnce: proved for colours files without `[`, which covers every real resource file. A file that holds the literal placeholder text `#[0-9A-Fa-f]{6}` is not covered.
- GuiPatch.ApplyStringIdempotent: proved for names and values without `<` or line break. The compiler only produces `connection_status` with "Connected" or "Disconnected".
- GuiPatch.ApplyTwiceOneString: proved for values without `<`, line break or carriage return; a carriage return in the value would be turned into a line break by the second read. The same holds for `GuiPatch.StringsTwiceOneEntry` and `GuiPatch.ApplyTwiceOneStringIntended`. The compiler's values have none of these characters.
- Routes.DisconnectedRequestReportedAsWritten: covers an old value without line break or carriage return. An old value with a carriage return and no `<` is covered by `Routes.CarriageReturnStatusKeptAsWritten`: the value is then kept. An old value with a carriage return and a `<` is not covered.
- Routes.DisconnectedRequestReportedIntended: the same restriction; the carriage-return case is `Routes.CarriageReturnStatusKeptIntended`.
- Writing a resource file is modelled as on POSIX, where text mode writes `\n` unchanged. On Windows the write would turn each `\n` into `\r\n`.
- GuiPatch.ApplyColorsIntendedIdempotent: proved for colour tables: distinct names without `"` or `<`, and `#rrggbb` values. `GuiPatch.IntendedColorTable` shows the compiler only produces such tables.
- Routes.Commit: `update_project_metadata` belongs to the file manager, which is not part of this model. It is modelled as a dictionary merge.
- These routes are not part of this model: `test_ai`, upload, decompile, project view and download. The same goes for the APK editor and file manager internals, and the template bodies.
- Concurrency and atomic file replacement are out of scope. Each handler is one pure step.

## Findings

| source | as written | input that shows it | evidently intended | confidence | as-written member | corrected member |
|---|---|---|---|---|---|---|
| app.py:1040-1043 | `str.replace` with a search text containing the literal characters `#[0-9A-Fa-f]{6}` | `colors.xml` = `<color name="button_color">#ff0000</color>`, modifications `button_color` → `#007bff`: the file is unchanged | replace any `#rrggbb` value of the named colour, as a regular expression would | not executed | GuiPatch.ButtonColorNotRewritten, GuiPatch.SingleDeclarationKept | GuiPatch.ApplyColorsIntended, GuiPatch.SingleDeclarationRewritten, GuiPatch.ApplyColorsIntendedIdempotent |
| app.py:996-1002 | `'connected' in t` is tested before `'disconnected' in t` | description "status disconnected": `connection_status` = "Connected", `status_color` = green | "disconnected" gives Disconnected in red | not executed | GuiCompiler.DisconnectedUnreachable, Routes.DisconnectedRequestReportedAsWritten | GuiCompiler.StatusRuleIntended, GuiCompiler.DisconnectedReachableIntended, Routes.DisconnectedRequestReportedIntended |
