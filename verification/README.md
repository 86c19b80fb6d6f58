# BirthdayBackend in Dafny

A model of the Telegram bot behind the BirthdayBackend greeting pages, with
proofs about it.

Users send the bot a photo and an audio message. They choose an event type and a
page template through inline keyboards. The bot then writes a personal
`index.html` into the user's page directory.

The model covers:

- **Configuration**: the upload limits, the template and event catalogs, the
  greeting texts, the two preference stores, and the checks on the environment
  variables at start-up.
- **Page metadata**: the metadata tables, their fallbacks, and the resolution of
  the eight `{{...}}` markers.
- **Page generation**: `copyHtmlTemplate` and `copyDefaultTemplate`, including
  the rewriting of `<div class="message">` blocks. Also `checkUserFiles`,
  `formatFileSize` and the page address.
- **The three handlers**: the `message` handler (photo and audio upload), the
  `callback_query` handler (visibility, event and template choice), and the
  seven slash commands.
- **The `/pages` listing** of the HTTP server: filtered, and stably sorted by
  modification time, newest first.

A user's directory is a value: whether it exists, the Telegram file ids stored
as `img.jpg` and `audio.mp3`, the content of `index.html`, and the
`showOnMainPage` flag of its client configuration. The state of the whole bot is
that map plus the two in-memory maps `userTemplates` and `userEvents`. Every
handler is a pure function from a state and an update to a new state and the
list of replies sent. Replies are modelled by kind, not wording.

Text replacement is modelled as `String.prototype.replace` with a global regular
expression made of one literal:

- matches are found left to right;
- matches do not overlap;
- inserted text is not scanned again.

The message regex `/<div class="message">.*?<\/div>/g` is modelled the same way.
Its lazy `.*?` stops at the first `</div>` on the same line, and `.` does not
match line terminators.

Modules, one file each:

| file | module | source |
|---|---|---|
| wrappers.dfy | Wrappers | `Option` and `Result` |
| text.dfy | Text | literal search and replace-all |
| config.dfy | Config | config.ts |
| metadata_config.dfy | Metadata | metadata-config.ts |
| helpers.dfy | Helpers | helpers.ts |
| bot_state.dfy | BotState | directories, stores and replies shared by the handlers |
| messages.dfy | Messages | bot/messages.ts |
| callbacks.dfy | Callbacks | bot/callbacks.ts |
| commands.dfy | Commands | bot/commands.ts |
| router.dfy | Router | the three handlers on one state; a command's text reaches the message handler first |
| api.dfy | Api | api.ts |

## Model

| member | source | states |
|---|---|---|
| Config.LimitValues | config.ts:13-14 | the photo limit is 512000 bytes and the audio limit 1048576 bytes |
| Config.Find | config.ts:39-53 | `find` by id returns an entry exactly when the id is one of the catalog's ids, and the entry found carries that id |
| Config.EntryInCatalog | config.ts:39-53 | every catalog entry is found by its own id |
| Config.TemplateCatalogIds | config.ts:39-44 | the template ids in order are indexFirst, indexTwo, indexThree and indexValentine; they are distinct, and the first is the default template |
| Config.EventCatalogIds | config.ts:47-53 | the event ids in order are birthday, anniversary, wedding, birth and valentine; they are distinct, and the first is the default event |
| Config.EventTextsCoverCatalog | config.ts:56-62 | the greeting table has an entry for exactly the catalog's events, including birthday |
| Config.CatalogIdsNotInherited | config.ts:39-53 | no template or event id of the catalogs is the name of a property every JavaScript object inherits |
| Config.EventText | helpers.ts:24 | `EVENT_TEXTS[eventId] \|\| EVENT_TEXTS.birthday`: a catalog event gets its own greeting, any other id gets the birthday greeting; the names every JavaScript object inherits, such as `constructor`, are treated as unknown ids too (see Left out) |
| Config.LoadSettings | config.ts:17-33 | start-up fails on the first of BOT_TOKEN, USER_PAGE_URL and PAGES_DIR that is missing or empty, in that order; on success BOT_TOKEN, USER_PAGE_URL and PAGES_DIR hold exactly the values of those variables (all non-empty), and MAIN_PAGE_URL is its variable's value or defaults to "" |
| Metadata.MetadataCoversCatalogs | metadata-config.ts:15-66 | the event metadata table has exactly the catalog's event ids, and the template table exactly its template ids |
| Metadata.GetEventMetadata | metadata-config.ts:69-71 | a catalog event gets its own metadata; any other id gets birthday's; the names every JavaScript object inherits, such as `constructor`, are treated as unknown ids too (see Left out) |
| Metadata.GetTemplateMetadata | metadata-config.ts:74-76 | a catalog template gets its own metadata; any other id gets indexFirst's; the names every JavaScript object inherits, such as `constructor`, are treated as unknown ids too (see Left out) |
| Metadata.MarkersShaped | metadata-config.ts:92-99 | each of the eight markers is `{{`, then upper-case letters and `_`, then `}}` |
| Metadata.MarkersDistinct | metadata-config.ts:92-99 | there are eight markers and no two are equal |
| Metadata.MarkerNotInside | metadata-config.ts:92-99 | an occurrence of a marker cannot start inside an occurrence of another marker, or at a different place inside the same marker |
| Metadata.MarkerOccurrencesDisjoint | metadata-config.ts:92-99 | occurrences of two different markers never overlap |
| Metadata.EmptyValueSplicesMarker | metadata-config.ts:97 | replacing `{{PAGE_URL}}` by the empty page address can create a new `{{EVENT_TITLE}}` out of the text around it |
| Metadata.SafeValueCompatible | metadata-config.ts:92-99 | a non-empty value without `{` that starts with no marker character can neither start nor complete any marker |
| Metadata.EventMetadataSafe | metadata-config.ts:15-46 | all four strings of the metadata returned for any event id are such safe values |
| Metadata.TemplateMetadataSafe | metadata-config.ts:49-66 | the template name returned for any template id is a safe value |
| Metadata.Substitutions | metadata-config.ts:91-99 | there are eight replacements, applied in the source's order, one per marker; the value each marker receives is stated by Metadata.ResolveMarkerValues |
| Metadata.ReplaceMetadataMarkers | metadata-config.ts:79-100 | the eight chained replacements; which value replaces which marker is stated by Metadata.ResolveMarkerValues, and the absence of markers afterwards by Metadata.ResolveRemovesAllMarkers |
| Metadata.ApplyAllNoMarkers | metadata-config.ts:91-99 | a text without any of the markers passes through the chain of replacements unchanged |
| Metadata.ApplyAllKeepsAbsent | metadata-config.ts:91-99 | a chain of replacements whose values cannot complete a pattern does not create that pattern |
| Metadata.ApplyAllRemovesAll | metadata-config.ts:91-99 | when no value can complete any marker, none of the replaced markers is left after the chain |
| Metadata.SafeSubstitutions | metadata-config.ts:87-99 | with safe metadata, page address and dates, every replacement value is safe |
| Metadata.SubstitutionsCompatible | metadata-config.ts:79-99 | with a safe page address and safe dates, no value of the resolution can complete any marker |
| Metadata.OmittedArgumentsDeleted | metadata-config.ts:83-85 | an omitted page address or date replaces its marker by the empty string, exactly as passing "" does |
| Metadata.ResolveRemovesAllMarkers | metadata-config.ts:79-100 | with a safe page address and safe dates, the resolved document contains none of the eight markers |
| Metadata.ApplyAllInContext | metadata-config.ts:91-99 | one marker between marker-free texts goes through the whole chain changed only by its own replacement, when the markers are distinct and its value is safe |
| Metadata.ResolveInContext | metadata-config.ts:79-100 | with safe arguments, the k-th marker between marker-free texts becomes the k-th value and the texts around it are kept |
| Metadata.ResolveMarkerValues | metadata-config.ts:87-99 | `{{EVENT_TITLE}}`, `{{EVENT_DESCRIPTION}}`, `{{EVENT_KEYWORDS}}` and `{{EVENT_NAME}}` become the event's title, description, keywords and name, `{{TEMPLATE_NAME}}` the template's name, and `{{PAGE_URL}}`, `{{CREATION_DATE}}` and `{{MODIFICATION_DATE}}` the page address, the creation date and the modification date, with the marker-free text around each kept |
| Metadata.ResolveWithoutMarkers | metadata-config.ts:79-100 | a document with no markers is returned unchanged |
| Metadata.ResolveIdempotent | metadata-config.ts:79-100 | with safe arguments, resolving a resolved document changes nothing |
| Metadata.ResolveUnknownEvent | metadata-config.ts:69-71 | an event id outside the catalog resolves exactly as birthday does; the names every JavaScript object inherits, such as `constructor`, are treated as unknown ids too (see Left out) |
| Metadata.ResolveUnknownTemplate | metadata-config.ts:74-76 | a template id outside the catalog resolves exactly as indexFirst does; the names every JavaScript object inherits, such as `constructor`, are treated as unknown ids too (see Left out) |
| Text.ReplaceAll | metadata-config.ts:92-99 | `s.replace(/p/g, v)` for a literal pattern; characterised by Text.ReplaceAllReaches (left-to-right, non-overlapping scan), Text.ReplaceAllRemovesAll and Text.ReplaceAllNoOccurrence |
| Text.ReplaceAllNoOccurrence | metadata-config.ts:92-99 | a global replace of a pattern that does not occur returns the text unchanged |
| Text.ReplaceAllBySelf | metadata-config.ts:92-99 | replacing a pattern by itself returns the text unchanged |
| Text.ReplaceAllLength | metadata-config.ts:92-99 | a shorter value never lengthens the text and a longer one never shortens it; both change the length strictly when the pattern occurs |
| Text.ReplaceAllUnchangedIff | metadata-config.ts:92-99 | with a value of a different length, the text is unchanged exactly when the pattern does not occur |
| Text.ReplaceAllRemovesAll | helpers.ts:70 | when the value cannot start or complete the pattern, the pattern does not occur in the result |
| Text.ReplaceAllKeepsAbsent | metadata-config.ts:92-99 | when the value cannot start or complete another pattern, that pattern is not created by the replacement |
| Text.StartsWithAfterReplace | metadata-config.ts:92-99 | a prefix that the value cannot start is a prefix of the result only if it was a prefix of the input |
| Text.ReplaceAllCopiesPrefix | metadata-config.ts:92-99 | the text before the first occurrence of the pattern is copied to the result unchanged |
| Text.ReplaceAllReaches | metadata-config.ts:92-99 | the scan reaches every index not covered by an earlier match, so the result ends with the replacement of the rest of the text |
| Text.ReplaceAllKeepsOccurrence | helpers.ts:70 | an occurrence of another text that overlaps no match of the pattern survives the replacement |
| Helpers.FindClose | helpers.ts:41 | the lazy `.*?</div>` ends at the first `</div>` after the opening tag, and only when no line terminator comes before it; without one on that line there is no match |
| Helpers.RewriteMessages | helpers.ts:40-43 | the `/g` rewrite of message spans; characterised by Helpers.RewriteReplacesSpan, Helpers.RewriteReaches and Helpers.RewriteWithoutSpan |
| Helpers.RewriteWithoutSpan | helpers.ts:40-43 | a text with no `<div class="message">...</div>` on one line is left unchanged |
| Helpers.RewriteProducesBlock | helpers.ts:40-43 | wherever such a span begins, the result contains `<div class="message">` + greeting + `</div>` |
| Helpers.RewriteReaches | helpers.ts:40-43 | the `/g` scan reaches every index that no earlier matched span covers, so the result ends with the rewrite of the text from there on |
| Helpers.RewriteReplacesSpan | helpers.ts:40-43 | every span the scan reaches is replaced by the greeting block and the scan resumes right after the span's `</div>`, so all spans are rewritten, not only the first |
| Helpers.StartsWithAfterRewrite | helpers.ts:40-43 | a prefix that does not start with `<` survives the rewrite only if the input had it |
| Helpers.RewriteKeepsAbsent | helpers.ts:40-43 | the rewrite does not create a text that the message block cannot start or complete, such as a marker |
| Helpers.PageUrl | helpers.ts:27 | the page address is "" without a username, and otherwise `USER_PAGE_URL`, a `/` and the username |
| Helpers.PageUrlInjective | helpers.ts:27 | two users get the same page address exactly when they have the same username |
| Helpers.PageUrlSafe | helpers.ts:27 | a safe base address and a username without `{` give a safe page address |
| Helpers.RenderPage | helpers.ts:21-43 | markers resolved with the page address and both dates set to now, then message spans rewritten with the greeting; characterised by Helpers.RenderRemovesMarkers, Helpers.RenderWithoutSpan and Helpers.RenderHasGreeting |
| Helpers.CopyHtmlTemplate | helpers.ts:7-47 | without the template, indexFirst.html is copied verbatim; without both, the call throws (None); otherwise markers are resolved with the page address and both dates set to now, then message blocks are rewritten |
| Helpers.EventTextBraceFree | config.ts:56-62 | no greeting contains `{` |
| Helpers.MessageBlockApart | helpers.ts:42 | the message block of any greeting has no `{`, and no marker contains `<` |
| Helpers.RenderUnknownEvent | helpers.ts:24-37 | an event id outside the catalog renders a page exactly as birthday does; the names every JavaScript object inherits, such as `constructor`, are treated as unknown ids too (see Left out) |
| Helpers.CopyUnknownEvent | helpers.ts:7-47 | an event id outside the catalog generates the same `index.html` as birthday; the names every JavaScript object inherits, such as `constructor`, are treated as unknown ids too (see Left out) |
| Helpers.RenderRemovesMarkers | helpers.ts:24-43 | with a safe page address and date, the rendered page contains no marker |
| Helpers.CopyRemovesMarkers | helpers.ts:7-47 | a page generated from an existing template, for a user with a username, contains no marker |
| Helpers.RenderWithoutSpan | helpers.ts:30-43 | without a message span, the page is the resolved template |
| Helpers.RenderHasGreeting | helpers.ts:30-43 | with a message span, the page contains the event's greeting inside a message block |
| Helpers.CopyDefaultTemplate | helpers.ts:50-74 | the neutral page is written exactly when default.html exists |
| Helpers.DefaultKeepsOtherMarkers | helpers.ts:68-70 | every other marker in default.html is still in the written page |
| Helpers.DefaultSubstitutesOnlyPageUrl | helpers.ts:68-70 | with a safe page address, `{{PAGE_URL}}` is gone, and any other marker is in the page exactly when it is in default.html |
| Helpers.FileSizeUnit | helpers.ts:96-100 | the unit `formatFileSize` picks; its boundaries at 1024 and 1048576 bytes are stated by Helpers.LimitUnits and its monotonicity by Helpers.FileSizeUnitMonotone |
| Helpers.FileSizeUnitMonotone | helpers.ts:96-100 | a larger size never gets a smaller unit |
| Helpers.LimitUnits | helpers.ts:96-100 | 1023 bytes are shown in B and 1024 in KB, 1048575 in KB and 1048576 in MB; so the photo limit (512000) and one byte below it are shown in KB, the audio limit in MB and one byte below it in KB |
| Helpers.DecimalRoundTrip | helpers.ts:97 | the decimal digits written for a byte count read back as that count |
| Helpers.FormatFileSize | helpers.ts:96-100 | the exact byte count is written below 1024, and otherwise the size is rounded into KB or MB by its unit |
| Helpers.FormatBytesRoundTrip | helpers.ts:97 | below 1024 the text is the decimal count followed by " B", and reads back as that count |
| BotState.CheckUserFiles | helpers.ts:77-81 | `checkUserFiles`: both assets are stored; Commands.StatusOf reports the page ready exactly then, and Api.EntryFor lists only such directories |
| BotState.Preference | bot/messages.ts:77-78 | `store.get(u) \|\| fallback`: the stored id when it is non-empty, else the fallback |
| BotState.PreferencesInCatalog | bot/messages.ts:77-78 | in a consistent state the template and event ids handed to the page generator are catalog ids, never an inherited property name |
| BotState.StoredEntry | bot/commands.ts:47-55 | a choice is shown exactly when a non-empty stored id is found in the catalog, and the entry shown has that id |
| BotState.Regenerate | bot/messages.ts:76-79 | regeneration changes only `index.html`, and succeeds exactly when the page generator does, writing its output |
| BotState.InitialWf | config.ts:64-68 | the start state is consistent: no user has files, and both stores are empty |
| Messages.AfterUpload | bot/messages.ts:76-90 | after an asset is written only the page can change; without both assets the replies are the saved message and the request for the other asset; the regenerating case is stated by Messages.PhotoRegeneratesIffAudio and Messages.AudioRegeneratesIffPhoto |
| Messages.AudioData | bot/messages.ts:96 | `msg.audio \|\| msg.voice`: an audio file is taken before a voice message |
| Messages.PhotoStage | bot/messages.ts:43-91 | the photo part stops exactly when the largest photo is over the limit; it never touches the audio, the directory or the visibility flag |
| Messages.AudioStage | bot/messages.ts:94-141 | the audio part stops exactly when the audio is over the limit; it never touches the photo, the directory or the visibility flag |
| Messages.OnMessage | bot/messages.ts:15-142 | a message never changes the preference stores |
| Messages.MessageFrame | bot/messages.ts:15-40 | without a username, nothing changes and only the instructions are sent; with one, only that user's directory changes, it exists afterwards, and its visibility flag is kept |
| Messages.TextMessage | bot/messages.ts:15-94 | a message with neither photo nor audio only sends the instructions when there is no username, and otherwise only creates the directory, without a reply |
| Messages.UploadLimitsInclusive | bot/messages.ts:49-106 | exactly the limit is accepted, one byte more is refused, and an unknown size is accepted |
| Messages.OversizedPhotoRejected | bot/messages.ts:49-56 | a photo over the limit is refused with the limit shown, and the audio of the same message is ignored |
| Messages.StoredPhotoIsLast | bot/messages.ts:46-71 | the stored photo is the last (largest) element of the photo array |
| Messages.PhotoRegeneratesIffAudio | bot/messages.ts:70-90 | after a photo, the page is regenerated with the stored or default template and event exactly when the audio exists; the replies say which way it went and whether the generator threw |
| Messages.OversizedAudioRejected | bot/messages.ts:99-106 | audio over the limit is refused and the stored audio stays; the last reply is the audio refusal, or the photo refusal when an oversized photo in the same message returned first |
| Messages.AudioRegeneratesIffPhoto | bot/messages.ts:96-140 | after audio, the page is regenerated exactly when the photo exists, with the same replies |
| Callbacks.ChooseEvent | bot/callbacks.ts:45-80 | an event choice never changes the template choices; characterised by Callbacks.EventChoiceEffect and Callbacks.UnknownEventIgnored |
| Callbacks.ChooseTemplate | bot/callbacks.ts:83-117 | a template choice never changes the event choices; characterised by Callbacks.TemplateChoiceEffect and Callbacks.UnknownTemplateIgnored |
| Callbacks.OnCallback | bot/callbacks.ts:11-118 | the `callback_query` handler; characterised by Callbacks.IncompleteCallbackIgnored, Callbacks.VisibilityAssigns, Callbacks.EventCallbackRouted, Callbacks.TemplateCallbackRouted and Callbacks.CallbackFrame |
| Callbacks.ParseCallback | bot/callbacks.ts:21-84 | data is routed as a visibility answer exactly for the two fixed strings; otherwise by the `event_` prefix before the `template_` prefix, with the prefix removed |
| Callbacks.ParseCallbackRoundTrip | bot/callbacks.ts:45-84 | `event_<id>` and `template_<id>` are routed back to `<id>` |
| Callbacks.IncompleteCallbackIgnored | bot/callbacks.ts:16-18 | a callback without chat id, username or data does nothing |
| Callbacks.CallbackFrame | bot/callbacks.ts:11-118 | a callback changes nothing of any user but its sender |
| Callbacks.EventChoiceFrame | bot/callbacks.ts:45-80 | an event choice changes nothing of any other user |
| Callbacks.TemplateChoiceFrame | bot/callbacks.ts:83-117 | a template choice changes nothing of any other user |
| Callbacks.VisibilityAssigns | bot/callbacks.ts:21-42 | a visibility answer sets the flag to "show" exactly for `visibility_yes`, and changes nothing else |
| Callbacks.VisibilityIdempotent | bot/callbacks.ts:21-42 | answering the same way twice leaves the state of answering once |
| Callbacks.UnknownEventIgnored | bot/callbacks.ts:47-52 | an id outside the event catalog is answered "not found" with no change |
| Callbacks.EventChoiceEffect | bot/callbacks.ts:55-62 | a catalog event is stored and the template choice is kept; the page is rewritten with the stored or default template exactly when both assets exist and the generator does not throw |
| Callbacks.EventCallbackRouted | bot/callbacks.ts:45-46 | a complete `event_` callback is the choice of the rest of the data |
| Callbacks.UnknownTemplateIgnored | bot/callbacks.ts:85-90 | an id outside the template catalog is answered "not found" with no change |
| Callbacks.TemplateChoiceEffect | bot/callbacks.ts:93-100 | a catalog template is stored and the event choice is kept; the page is rewritten with the stored or default event exactly when both assets exist and the generator does not throw |
| Callbacks.TemplateCallbackRouted | bot/callbacks.ts:83-84 | a complete `template_` callback that does not start with `event_` is the choice of the rest of the data |
| Callbacks.UnrecognisedDataIgnored | bot/callbacks.ts:21-118 | data matching none of the cases does nothing |
| Commands.CatalogButtons | bot/commands.ts:124-158 | one button per catalog entry, in order, labelled with its name and carrying the prefix and its id |
| Commands.EventButtonSelects | bot/commands.ts:124-131 | pressing the i-th `/event` button stores the i-th event of the catalog |
| Commands.TemplateButtonSelects | bot/commands.ts:151-158 | pressing the i-th `/template` button stores the i-th template of the catalog |
| Commands.VisibilityButtonsRoundTrip | bot/commands.ts:237-244 | the two `/visibility` buttons are read back as "show" and "hide" |
| Commands.Missing | bot/commands.ts:198-212 | nothing is missing once photo and audio exist; otherwise exactly the missing steps are listed, each once, in the order event, template, photo, audio |
| Commands.StatusOf | bot/commands.ts:178-212 | `/status` reports the choices found in the catalogs and which assets exist; the page is ready exactly when both exist, and the list of missing steps is computed from these |
| Commands.OnDelete | bot/commands.ts:254-301 | the `/delete` handler; characterised by Commands.DeleteResets, Commands.DeleteWithoutDirectory and Commands.DeleteIdempotent |
| Commands.OnCommand | bot/commands.ts:24-251 | no command but `/delete` changes the state |
| Commands.CommandNeedsUsername | bot/commands.ts:112-122 | every command except `/help` answers a user without a username with the request for one, and changes nothing |
| Commands.StartAgreesWithStatus | bot/commands.ts:44-55 | in a consistent state, `/start` reports existing files exactly when `/status` reports the page ready |
| Commands.DeleteWithoutDirectory | bot/commands.ts:268-271 | the `/delete` handler on its own, without a directory, says there is nothing to delete and changes nothing; in the running bot this branch is not reached (see Router.DeleteFindsDirectory) |
| Commands.DeleteResets | bot/commands.ts:266-295 | after `/delete` both stored choices are removed and every step is missing again; the directory and visibility flag remain; `index.html` is the neutral page when default.html exists and is unchanged otherwise; no other user is touched |
| Commands.CommandFrame | bot/commands.ts:254-301 | a command changes nothing of any user but its sender |
| Commands.DeleteKeepsWf | bot/commands.ts:273-291 | `/delete` keeps the state consistent |
| Commands.DeleteIdempotent | bot/commands.ts:254-301 | deleting twice leaves the state of deleting once |
| Router.Step | bot/messages.ts:15-40 | one update against the shared state, a command's text passing through the message handler first; characterised by Router.StepKeepsWf, Router.StepFrame and Router.DeleteFindsDirectory |
| Router.NoActorNoChange | bot/messages.ts:20-33 | an update without an actor changes nothing |
| Router.StepFrame | bot/callbacks.ts:11-18 | any update changes nothing of any user but its actor |
| Router.MessageKeepsWf | bot/messages.ts:35-141 | a message keeps the state consistent |
| Router.EventChoiceKeepsWf | bot/callbacks.ts:45-62 | an event choice keeps the state consistent; only catalog ids are stored |
| Router.TemplateChoiceKeepsWf | bot/callbacks.ts:83-100 | a template choice keeps the state consistent; only catalog ids are stored |
| Router.VisibilityKeepsWf | bot/callbacks.ts:21-26 | a visibility answer keeps the state consistent |
| Router.CallbackKeepsWf | bot/callbacks.ts:11-118 | every callback keeps the state consistent |
| Router.StepKeepsWf | bot/messages.ts:15-142 | every update keeps the state consistent: nothing is stored outside an existing directory, and only catalog ids are stored as choices |
| Router.CommandKeepsWf | bot/commands.ts:254-301 | a command, after the message handler has seen its text, keeps the state consistent |
| Router.CommandWithoutUsername | bot/messages.ts:20-33 | a command from a user without a username gets the message handler's instructions before the command's own answer, and changes nothing |
| Router.DeleteFindsDirectory | bot/commands.ts:266-296 | since the message handler creates the directory first, `/delete` always answers that the greeting was deleted, never that there is nothing to delete; the assets and both choices are removed and the directory remains |
| Router.PhotoThenAudio | bot/messages.ts:70-136 | a new user who sends a photo and then audio gets the default template rendered for birthday at the second time, a link to the page, and a ready status |
| Api.EntryFor | api.ts:19-25 | a user's directory passes the filter exactly when it exists, holds both assets and is marked to be shown |
| Api.Visible | api.ts:18-25 | an entry is kept exactly when it is a directory with both assets and `showOnMainPage` |
| Api.VisibleInOrder | api.ts:18-25 | the filter keeps the entries of each modification time in `readdir` order |
| Api.ListPages | api.ts:13-37 | a missing pages directory gives an empty list, and a failure gives the error response and nothing else |
| Api.SortDesc | api.ts:30 | the stable sort newest first; characterised by Api.SortDescSorted, Api.SortDescPermutes and Api.SortDescStable |
| Api.SortDescSorted | api.ts:30 | the result is ordered by modification time, newest first |
| Api.SortDescPermutes | api.ts:30 | the sort returns exactly the entries it was given, as many times each |
| Api.SortDescStable | api.ts:30 | entries with the same modification time keep their directory order |
| Api.ListPagesOrder | api.ts:17-31 | the names sent back are those of the listed entries, sorted newest first, with entries of equal modification time in `readdir` order |
| Api.ListedIff | api.ts:17-31 | a name is listed exactly when some entry of that name passes the filter |
| Api.ListedOnce | api.ts:17-31 | with the distinct names a directory has, each name is listed at most once |

## Left out

- index.ts, dev-server.ts, database.ts and init-db.ts are not modelled. index.ts is an older standalone bot whose upload and `/delete` handlers follow different rules; dev-server.ts is a template preview server; database.ts and init-db.ts are SQLite storage the handlers do not use.
- The Telegram transport is not modelled. This covers sending, editing and answering messages, `setMyCommands`, `getFile`, and the download by `fetch`. A failed download or write is a `fetched = false` flag on the upload.
- The file bytes are not modelled. Only the Telegram file id stands for them.
- Handler concurrency is not modelled. Each update is handled to completion before the next.
- A command's text is also an ordinary message. The library emits `message` before it runs the `onText` callbacks, and the message handler creates the directory before its first `await`. `Router.Step` therefore runs the message handler, then the command handler. Other interleavings of the two asynchronous handlers are not modelled; for a command's text the message handler does nothing after creating the directory.
- Commands.DeleteWithoutDirectory: states the `/delete` handler on its own. Through `Router.Step` the directory always exists, so the bot never answers that there is nothing to delete (`Router.DeleteFindsDirectory`).
- Config.EventText: `EVENT_TEXTS[id]` for a name every JavaScript object inherits (`constructor`, `toString`, `__proto__`, ... listed as `Config.InheritedNames`) finds a function or object rather than falling back; the model gives the birthday greeting. The handlers only look up catalog ids (`BotState.PreferencesInCatalog`, `Config.CatalogIdsNotInherited`).
- Metadata.GetEventMetadata: for an inherited name the source returns the inherited value (for `constructor`, `{{EVENT_NAME}}` becomes "Object" and the other event markers "undefined"); the model returns birthday's metadata.
- Metadata.GetTemplateMetadata: for an inherited name the source returns the inherited value; the model returns indexFirst's metadata.
- Metadata.ResolveUnknownEvent: does not hold in the source for inherited names, only in the model, for the reason given under Metadata.GetEventMetadata.
- Metadata.ResolveUnknownTemplate: does not hold in the source for inherited names, for the reason given under Metadata.GetTemplateMetadata.
- Helpers.RenderUnknownEvent: does not hold in the source for inherited names, because of Config.EventText and Metadata.GetEventMetadata.
- Helpers.CopyUnknownEvent: does not hold in the source for inherited names, for the same reason as Helpers.RenderUnknownEvent.
- `onText` uses unanchored regexes, so `/eventful` also triggers `/event`. This is not modelled: a command is recognised by name.
- The client configuration file is reduced to its `showOnMainPage` flag, which is false for a user the bot has not seen. `readClientConfig` and `writeClientConfig` are not part of this model: helpers.ts does not define them, although api.ts:5, bot/callbacks.ts:8 and bot/commands.ts:9 import them. For a user without a directory, the model records the flag anyway.
- The current time is a parameter. `new Date().toISOString()` is not formatted.
- File-system errors are not modelled, apart from the missing template files and missing directories that the source tests for.
- Helpers.FormatFileSize: the number printed by `toFixed(1)` in KB and MB is not modelled, only the unit (floating point).
- `$` patterns (`$&`, `$1`, ...) in replacement values are not interpreted. Only values without `$` are modelled faithfully; none of the metadata or greeting texts contains one.
- The effect of an exception that callbacks.ts does not catch is not modelled beyond its visible part: the choice stays stored and no answer is sent. What the process does with the rejected promise is left out.
- The reply texts are not modelled, only which reply is sent and its data.
- In the checked-in config.ts the Russian catalog and greeting strings are mis-encoded (UTF-8 bytes read as Mac Roman). The model uses the decoded text, which agrees with the same strings in metadata-config.ts and bot/commands.ts.

## Remarks

A natural claim would be that no `{{` in any replacement value means no marker is
left after resolution. That claim is false. A marker replaced by the empty string
can splice its neighbours into another marker, and `Metadata.EmptyValueSplicesMarker`
exhibits such a case. This happens with the default empty page address when a
message has no username, a path the bot never takes, since every handler first
requires a username. The proved condition is `SafeValue`: a non-empty value
without `{` whose first character is not a marker character. Every metadata
string, every greeting and every page address built from a safe base satisfies
it.
