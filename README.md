# Math tutor bot: a Dafny model of its core

The math tutor bot answers math problems sent over Telegram, WhatsApp or a
web page. An AI provider solves each problem. The bot turns the provider's
free-form answer into a solution record and formats that record for each
chat front end. Around this sit a per-user rate limiter, a content filter
and a conversation logger. This project models that core in Dafny and
proves what each piece does:

- `rate_limiter.dfy` (module `RateLimiting`) models the sliding-window rate limiter.
  - Class `RateLimiter` keeps the two maps the source keeps: caller id to timestamps, and caller id to ban expiry.
  - Its methods are proved against the specification function `Admit`, which covers one admission check, and against the sweep functions.
  - The class invariant is that no window holds more than `max_requests` entries, and that every window is sorted with no timestamp later than the latest time a check or sweep ran at. A ghost `clock` field records that time.
- `unstructured.dfy` (module `ResponseParsing`) models the line-by-line parser of a free-text AI answer. The two solver variants share it.
- `ai_solver.dfy` (module `AiSolver`) models four operations of `ai_solver.py`:
  - the JSON-slice answer parser with its fallback;
  - the step cleaning;
  - the OCR text cleanup;
  - the choice of OCR result.
- `ai_solver_clean.py` has its own module, `AiSolverClean` in `ai_solver_clean.dfy`. It models the strict parser of that variant and its image stub.
- `bot.dfy` (module `TelegramBot`) models three parts of the Telegram bot:
  - the solution formatter;
  - the Markdown escaper, with a round trip;
  - the demo-question table.
- `whatsapp_bot.dfy` (module `WhatsAppBot`) models the WhatsApp formatter, the routing of an incoming webhook form, and the caller-id derivation.
- `content_filter.dfy` (module `ContentFiltering`) models the keyword decision, the math and intent heuristics, the suggestions and the whitelist sanitiser.
- `conversation_logger.dfy` (module `ConversationLogging`) models the response sanitiser and the log entry's truncation.
- `web_demo.dfy` (module `WebDemo`) models the demo solver's table lookup.
- Two shared modules model the Python built-ins the code relies on:
  - `text.dfy` (module `Text`): `str.strip`, `lower`, `in`, `find`/`rfind`, `split`, `join` and `replace`, plus slicing.
  - `json.dfy` (modules `Wrappers` and `Json`) models JSON values:
    - a Python dict is a sequence of (key, value) pairs in insertion order;
    - `str()` and truthiness follow Python;
    - iteration yields `None` where Python raises `TypeError`.

`json.loads` is a parameter `loads: string -> Option<Dict>`, where `None` is a decode error. The code's environment settings, clock and string hash also become parameters.

## Model

| member | source | states |
|---|---|---|
| RateLimiting.Evict | utils/rate_limiter.py:65-68 | eviction never lengthens the window; the first kept timestamp is at or after the window start |
| RateLimiting.EvictSuffix | utils/rate_limiter.py:65-68 | eviction keeps a suffix of the window and every dropped timestamp is strictly older than the window start |
| RateLimiting.CountRecent | utils/rate_limiter.py:124-126 | the recent count never exceeds the window's length |
| RateLimiting.CountRecentIsEvictedLength | utils/rate_limiter.py:124-126 | for a sorted window, the status count equals the number of entries eviction keeps |
| RateLimiting.PenaltyExpiry | utils/rate_limiter.py:91-108 | the ban lasts 60, 600 or 3600 s: 3600 exactly when count >= 3*max, 60 exactly when count < 2*max (and < 3*max) |
| RateLimiting.Admit | utils/rate_limiter.py:53-84 | a caller under a running ban is denied and nothing changes |
| RateLimiting.AdmitDecision | utils/rate_limiter.py:53-84 | without a running ban: an expired ban is deleted; the call is allowed iff the evicted window has fewer than max entries; allowed appends `now` at the end, denied sets the penalty ban and keeps the evicted window |
| RateLimiting.AdmitUntracked | utils/rate_limiter.py:62-84 | for a caller with no ban on record: at max or more evicted entries the call is denied, the evicted window kept and the penalty ban set; below max it is allowed, `now` appended and the bans unchanged |
| RateLimiting.DenialNeverAppends | utils/rate_limiter.py:71-79 | a denied call leaves the caller's window a suffix of what it was |
| RateLimiting.AdmitIsolatesCallers | utils/rate_limiter.py:53-84 | no other caller's window or ban changes |
| RateLimiting.AdmitKeepsBound | utils/rate_limiter.py:71-82 | if every window holds at most max entries before, it does after |
| RateLimiting.AdmitKeepsSorted | utils/rate_limiter.py:67-82 | under a clock that does not run backwards, every window stays sorted and holds no timestamp later than `now` |
| RateLimiting.OnlyShortBanReachable | utils/rate_limiter.py:71-108 | with max >= 1 and bounded windows, a denial always sets the 60 s ban |
| RateLimiting.ZeroLimitBansForAnHour | utils/rate_limiter.py:71-97 | with max = 0 every unbanned call is denied with the 3600 s ban |
| RateLimiting.ExpiredBanForgotten | utils/rate_limiter.py:58-60 | an expired ban is decided exactly as if the caller had never been banned |
| RateLimiting.AdmitRecentWindow | utils/rate_limiter.py:65-84 | with no running ban and nothing old enough to evict, the call is allowed iff the window holds fewer than max entries; allowed appends `now` and clears the ban, denied sets the penalty ban |
| RateLimiting.SecondCallInAMinuteDenied | utils/rate_limiter.py:53-108 | with 1 request per 60 s, a first call is allowed; a second one 59 s later is denied, banned until 119 s after the first, and the window stays the first timestamp |
| RateLimiting.SweepWindows | utils/rate_limiter.py:183-197 | no contract of its own; characterised by `SweepWindowsKeepsNonEmpty`, `SweepKeepsSorted`, `SweepLeavesOnlyRecent` |
| RateLimiting.SweepWindowsKeepsNonEmpty | utils/rate_limiter.py:183-197 | after the sweep, a caller is tracked iff its evicted window is non-empty, and it holds exactly that evicted window |
| RateLimiting.SweepBans | utils/rate_limiter.py:199-206 | the swept bans are exactly the bans still running at `now`, with unchanged expiries |
| RateLimiting.EvictLeavesRecent | utils/rate_limiter.py:65-68 | evicting a sorted window leaves no timestamp older than the window start |
| RateLimiting.SweepLeavesOnlyRecent | utils/rate_limiter.py:183-197 | after a sweep of sorted windows no timestamp is older than the window start |
| RateLimiting.SweepKeepsSorted | utils/rate_limiter.py:183-197 | a sweep keeps every window sorted with nothing later than `now` |
| RateLimiting.RecentTotalRemove | utils/rate_limiter.py:228-233 | the total of recent requests does not depend on the order callers are visited |
| RateLimiting.PopExpired | utils/rate_limiter.py:67-68 | the `popleft` loop computes `Evict` |
| RateLimiting.SumRecent | utils/rate_limiter.py:228-233 | the statistics loop counts the active callers and their recent requests; active callers never outnumber recent requests |
| RateLimiting.EvictAll | utils/rate_limiter.py:184-194 | every window is evicted; the callers to remove are exactly those whose window became empty |
| RateLimiting.SweepRequests | utils/rate_limiter.py:183-197 | the window half of the sweep computes `SweepWindows` |
| RateLimiting.SweepRemovesEmpty | utils/rate_limiter.py:196-197 | deleting the collected callers after eviction leaves exactly `SweepWindows` |
| RateLimiting.SweepKeepsBound | utils/rate_limiter.py:183-197 | a sweep keeps every window within max entries |
| RateLimiting.ExpiredBansRemoved | utils/rate_limiter.py:199-206 | deleting the bans with expiry <= `now` leaves exactly `SweepBans` |
| RateLimiting.RateLimiter.constructor | utils/rate_limiter.py:15-31 | a new limiter tracks nobody, bans nobody, has seen no time yet, and satisfies the invariant |
| RateLimiting.RateLimiter.CheckRateLimit | utils/rate_limiter.py:36-84 | result and new maps are those of `Admit`; the invariant, sortedness included, is kept and the clock moves to `now` |
| RateLimiting.RateLimiter.CountRequest | utils/rate_limiter.py:62-84 | the part after the ban check agrees with `Admit` |
| RateLimiting.RateLimiter.ApplyPenalty | utils/rate_limiter.py:91-108 | the ban is overwritten with `PenaltyExpiry`; windows unchanged |
| RateLimiting.RateLimiter.GetUserStatus | utils/rate_limiter.py:110-141 | changes nothing. It reports the recent count, which under the invariant is the length the next check's eviction would keep, `max(0, max - recent)` remaining, banned iff the expiry is after `now`, and the remaining ban time (0 for a zero expiry) |
| RateLimiting.RateLimiter.ResetUserLimits | utils/rate_limiter.py:147-159 | the caller's window is emptied if tracked, its ban removed, everyone else unchanged |
| RateLimiting.RateLimiter.Sweep | utils/rate_limiter.py:183-206 | the new maps are `SweepWindows` and `SweepBans` of the old ones; the invariant is kept; no timestamp older than the window start remains |
| RateLimiting.RateLimiter.GetStatistics | utils/rate_limiter.py:219-249 | counts as defined; active users <= tracked users, active bans <= banned users |
| RateLimiting.RateLimiter.CountActiveBans | utils/rate_limiter.py:236-239 | counts the bans with expiry after `now` |
| ResponseParsing.SolutionOf | ai_solver.py:370 | with a colon, the result is trimmed and shorter than the line; without, the line itself |
| ResponseParsing.ColonSurvivesLower | ai_solver.py:369-370 | lowering neither creates nor removes a colon |
| ResponseParsing.SolutionLineHasColon | ai_solver.py:369-370 | a line naming a solution marker always has a colon, so the `else line` branch is never taken |
| ResponseParsing.Classify | ai_solver.py:369-372 | no contract of its own; characterised by `ClassifyMeans` |
| ResponseParsing.ClassifyMeans | ai_solver.py:369-372 | a line announces a solution iff it names a marker; it is a step iff it names a step word and no marker; a step is the line itself |
| ResponseParsing.AnnouncedSolutionAfterColon | ai_solver.py:369-370 | an announced solution is the stripped text after the first colon |
| ResponseParsing.LineKinds | ai_solver.py:360-368 | one classification per line, of the stripped line |
| ResponseParsing.LastAnnouncementWins | ai_solver.py:362-370 | with no announcement the default stays; otherwise the last announcing line decides |
| ResponseParsing.StepTexts | ai_solver.py:371-372 | no more steps than lines |
| ResponseParsing.StepTextsExact | ai_solver.py:371-372 | every step comes from a step line and every step line appears |
| ResponseParsing.SentenceOfPiece | ai_solver.py:376-377 | a stripped piece longer than 10 with `.` appended is a sentence step |
| ResponseParsing.SentenceCandidates | ai_solver.py:376-377 | each candidate is a sentence step; no more candidates than pieces |
| ResponseParsing.SentenceCandidatesAppend | ai_solver.py:377 | the candidates of two runs of pieces are those of the first, then those of the second, so piece order is kept |
| ResponseParsing.SentenceCandidatesFromPieces | ai_solver.py:377 | every candidate is some piece stripped plus `.`, for a piece whose stripped text is longer than 10 |
| ResponseParsing.SentenceCandidatesComplete | ai_solver.py:377 | every piece whose stripped text is longer than 10 gives its candidate |
| ResponseParsing.SentenceSteps | ai_solver.py:374-377 | the fallback steps are the first 10 candidates of the response's `.`-pieces, or all of them when there are fewer; each is a sentence step |
| ResponseParsing.StringList | ai_solver.py:381 | the list holds the strings in order |
| ResponseParsing.ParsedDictDistinct | ai_solver.py:379-388 | the seven keys of the fallback dict are distinct |
| ResponseParsing.ParsedDictFields | ai_solver.py:379-388 | the fallback dict has distinct keys and each of its seven fields reads back under its key, with problem type and difficulty `unknown` |
| ResponseParsing.AddMetadataFields | ai_solver.py:338-339 | the metadata is set and every other key keeps its value |
| ResponseParsing.AddMetadataKeys | ai_solver.py:338-339 | existing keys keep their order and a dict without repeated keys stays so |
| ResponseParsing.UnstructuredResult | ai_solver.py:356-388 | no contract of its own; characterised by `UnstructuredResultShape` |
| ResponseParsing.UnstructuredResultShape | ai_solver.py:356-388 | the explanation is the whole text; the problem and provider are recorded; problem type and difficulty are `unknown`; steps are the step lines, or the sentences when there are none |
| ResponseParsing.StepIsStrippedLine | ai_solver.py:367-372 | a step taken from a line holds no line break and is trimmed |
| ResponseParsing.StepsAreSingleLines | ai_solver.py:360-372 | every step line of a response is a single stripped line |
| ResponseParsing.ParseUnstructuredResponse | ai_solver.py:356-388 | the method computes `UnstructuredResult` |
| ResponseParsing.ScanOneLine | ai_solver.py:367-372 | reading one line moves both the solution and the step scans on by that line's kind |
| ResponseParsing.ReadLine | ai_solver.py:368-372 | one loop pass: an announcement replaces the solution, else a step line is appended |
| ResponseParsing.ScanLines | ai_solver.py:362-372 | the loop leaves the last announced solution and the step lines in order |
| AiSolver.JsonCandidate | ai_solver.py:306-313 | None iff no `{` or no `}` after the first one; otherwise the slice opens with that first `{`, closes with the last `}`, and occurs in the text |
| AiSolver.CleanSteps | ai_solver.py:328-335 | no more cleaned steps than entries |
| AiSolver.CleanStepsAppend | ai_solver.py:330-333 | cleaning is entry by entry, so order is kept |
| AiSolver.CleanStepsExact | ai_solver.py:330-333 | a step is kept iff its stripped `str` is longer than 10 and does not start with `"` |
| AiSolver.CollectSteps | ai_solver.py:329-333 | the append loop computes `CleanSteps` |
| AiSolver.ParseAiResponse | ai_solver.py:302-354 | the method computes `AiResponse` |
| AiSolver.AiResponse | ai_solver.py:302-354 | no contract of its own; characterised by `NoneOnlyForReportedError`, `FallsBackToUnstructured`, `AcceptedFields`, `UsesParsedObject`, `NonIterableStepsFallBack` |
| AiSolver.NoneOnlyForReportedError | ai_solver.py:319-321 | None iff the candidate decodes to an object with an `error` key |
| AiSolver.FallsBackToUnstructured | ai_solver.py:324-350 | no candidate, a decode error or a missing field gives the unstructured parse of the stripped text |
| AiSolver.AcceptedFields | ai_solver.py:335-339 | an accepted object keeps its keys; `steps` is the cleaned list, the metadata is set, the rest untouched |
| AiSolver.UsesParsedObject | ai_solver.py:315-342 | a well-formed object whose `steps` can be iterated (list, string or dict) is returned accepted, its steps cleaned from what iteration yields |
| AiSolver.NonIterableStepsFallBack | ai_solver.py:328-354 | a `steps` that cannot be iterated raises in the step loop, and the answer is the unstructured parse of the stripped text |
| AiSolver.CleanExtractedText | ai_solver.py:184-227 | the method computes `CleanedText` |
| AiSolver.GlyphTableAscii | ai_solver.py:197-222 | every glyph is non-ASCII, every replacement ASCII with plain spaces only |
| AiSolver.CleanedText | ai_solver.py:184-227 | no contract of its own; characterised by `CleanedTextClean`, `ReplaceAllClears` |
| AiSolver.ReplaceAll | ai_solver.py:224-225 | no contract of its own; characterised by `ReplaceAllClears` |
| AiSolver.ApplyTable | ai_solver.py:224-225 | the replacement loop computes `ReplaceAll` of the text and the table |
| AiSolver.ReplaceAllClears | ai_solver.py:224-225 | after the table runs, none of its glyphs remain and no new non-ASCII or non-space whitespace appears |
| AiSolver.CleanedTextClean | ai_solver.py:186-227 | the cleaned text holds no glyph of the table and no whitespace but the plain space |
| AiSolver.FirstReadableEasyOcr | ai_solver.py:177-179 | None iff no EasyOCR result has non-blank text; otherwise that index is such a result |
| AiSolver.ChooseBestOcrResult | ai_solver.py:171-182 | "" for no results; the first non-blank EasyOCR text; else the first result's text |
| AiSolverClean.ParseAiResponse | ai_solver_clean.py:143-178 | the method, with its field loop, computes `CleanAiResponse` |
| AiSolverClean.CleanAiResponse | ai_solver_clean.py:143-178 | no contract of its own; characterised by `JsonOnlyForBraceOpening`, `NoneForErrorOrMissingField`, `AcceptedUnchanged` |
| AiSolverClean.JsonOnlyForBraceOpening | ai_solver_clean.py:147-175 | without a leading `{`, or on a decode error, the answer is the unstructured parse of the unstripped text |
| AiSolverClean.NoneForErrorOrMissingField | ai_solver_clean.py:150-160 | None iff the text opens with `{`, decodes, and has an `error` key or lacks `solution` or `steps` |
| AiSolverClean.AcceptedUnchanged | ai_solver_clean.py:162-167 | an accepted object keeps `solution` and `steps` as decoded and gains the metadata |
| AiSolverClean.ExtractTextFromImage | ai_solver_clean.py:67-74 | always None |
| TelegramBot.InnerSlice | bot.py:404-406 | `t[1:-k]` has length len(t)-1-k, or 0 when too short; put back between the first character and the last k it rebuilds t |
| TelegramBot.Unquote | bot.py:403-406 | unquoting never lengthens a step and only changes a step that starts with `"`; what it removes is stated by `UnquoteRemovesQuotes` |
| TelegramBot.UnquoteRemovesQuotes | bot.py:403-406 | a step `"…",` is the opening quote, the result and `",`; a step `"…"` not ending in `",` is the quotes around the result; a step not opening with `"` is kept |
| TelegramBot.ShownSteps | bot.py:400-413 | no more shown steps than entries |
| TelegramBot.ShowStep | bot.py:402-413 | an entry is shown iff it is not skipped, and then its text has `**` removed |
| TelegramBot.NumberSteps | bot.py:399-416 | the loop writes the shown steps numbered from 1 |
| TelegramBot.FormatSolution | bot.py:389-426 | the method computes `FormattedSolution` |
| TelegramBot.ShownStepsAppend | bot.py:400-416 | entries are handled one by one, so the shown steps keep their order |
| TelegramBot.NumberedAppend | bot.py:415-416 | numbering carries on across a join: only shown steps advance the counter |
| TelegramBot.ShownStepsClean | bot.py:409-413 | no shown step contains `**` |
| TelegramBot.ShownStepSource | bot.py:400-413 | each shown step is the shown text of some entry that was not skipped |
| TelegramBot.MalformedEntrySkipped | bot.py:402-410 | the entry `"steps": [` is skipped bare, quoted with a trailing comma, and quoted |
| TelegramBot.MalformedEntryBare | bot.py:402-406 | the bare entry unquotes to itself |
| TelegramBot.MalformedEntryQuotedComma | bot.py:402-404 | the entry quoted with a trailing comma unquotes to the bare entry |
| TelegramBot.MalformedEntryQuoted | bot.py:402-406 | the quoted entry unquotes to the bare entry |
| TelegramBot.FormattedSolution | bot.py:389-426 | no contract of its own; characterised by `FormattedSolutionLayout` |
| TelegramBot.FormattedSolutionLayout | bot.py:393-426 | the answer starts with the heading and solution; the step heading appears iff `steps` is truthy; a non-iterable `steps` gives the error text |
| TelegramBot.EscapeChainAppend | bot.py:433-439 | the seven substitutions distribute over concatenation |
| TelegramBot.SubstCharAbsent | bot.py:433-439 | a substitution changes nothing when the character is absent |
| TelegramBot.SubstCellStep | bot.py:433-439 | on one character, the next substitution escapes it iff it is that substitution's character and not escaped by an earlier one |
| TelegramBot.EscapeChainChar | bot.py:433-439 | on one character the seven substitutions escape it iff it is special |
| TelegramBot.EscapeChainIsEscapeAll | bot.py:433-439 | the chain equals a single left-to-right escaping pass |
| TelegramBot.EscapeMarkdown | bot.py:428-440 | no contract of its own; characterised by `EscapeMarkdownByChain`, `EscapeMarkdownEscapes` |
| TelegramBot.EscapeMarkdownByChain | bot.py:428-440 | `_escape_markdown` is the marker removal followed by that pass |
| TelegramBot.EscapeAllEscapes | bot.py:433-439 | every special character has a backslash right before it |
| TelegramBot.EscapeMarkdownEscapes | bot.py:428-440 | the output has every special character escaped and no `**` or `__` |
| TelegramBot.UnescapeEscapeAll | bot.py:433-439 | undoing the escapes gives back the text that was escaped |
| TelegramBot.DemoQuestion | bot.py:326-335 | a question exists iff the callback data is a demo key, and it is that key's question |
| TelegramBot.Lookup | bot.py:334-335 | dict lookup: found iff the key occurs, the first match's value |
| WhatsAppBot.FormatSolution | whatsapp_bot.py:365-374 | the enumerate loop computes `FormattedSolution` |
| WhatsAppBot.AppendStepLines | whatsapp_bot.py:370-372 | the loop appends exactly the numbered step lines, from 1, after what was there |
| WhatsAppBot.StepLinesAppend | whatsapp_bot.py:370-372 | numbering carries on across a join, no entry dropped |
| WhatsAppBot.StepLinesEach | whatsapp_bot.py:370-372 | entry k gets line number n + k, unfiltered |
| WhatsAppBot.FormattedSolution | whatsapp_bot.py:365-374 | no contract of its own; characterised by `FormattedSolutionLayout` |
| WhatsAppBot.FormattedSolutionLayout | whatsapp_bot.py:365-374 | a missing `solution` raises; a falsy `steps` gives the heading alone; a truthy iterable `steps` adds the step heading and lines; a truthy non-iterable `steps` raises |
| WhatsAppBot.MalformedEntryKept | whatsapp_bot.py:370-372 | any entry, even `"steps": [`, becomes a numbered line |
| WhatsAppBot.UserId | whatsapp_bot.py:89-90 | the user id lies in [0, 999999] and is the hash modulo 1000000 |
| WhatsAppBot.RouteMessage | whatsapp_bot.py:78-110 | no contract of its own; characterised by `NoSenderExactly`, `MediaTakesPriority`, `TextRouting` |
| WhatsAppBot.NoSenderExactly | whatsapp_bot.py:78-83 | the 400 answer is given iff the sender is empty once `whatsapp:` is removed |
| WhatsAppBot.MediaTakesPriority | whatsapp_bot.py:98-100 | an image is solved whatever the body, with the user id in range |
| WhatsAppBot.TextRouting | whatsapp_bot.py:79-110 | greeting, help word, other text and empty body each get their route, in both directions |
| ContentFiltering.ParseKeywords | utils/content_filter.py:20-21 | one keyword per comma-separated piece |
| ContentFiltering.ParsedKeywordsClean | utils/content_filter.py:21 | keywords hold no comma, no outer whitespace, no ASCII capital |
| ContentFiltering.Configure | utils/content_filter.py:19-21 | the filter is on iff the setting is unset or lowers to `true`; the keywords are parsed from the setting, or from the defaults when it is unset |
| ContentFiltering.ContainsBlocked | utils/content_filter.py:88-93 | no contract of its own; characterised by `ContainsBlockedMeans` |
| ContentFiltering.ContainsBlockedMeans | utils/content_filter.py:88-93 | blocked iff some non-empty keyword is a substring; empty keywords never match |
| ContentFiltering.IsMathRelated | utils/content_filter.py:95-118 | no contract of its own; characterised by `MathTermMakesMath`, `QuestionWordMakesMath`, `DigitMakesMath` |
| ContentFiltering.MathTermMakesMath | utils/content_filter.py:98-100 | a math term makes the text math-related |
| ContentFiltering.QuestionWordMakesMath | utils/content_filter.py:108-116 | a question phrase makes the text math-related |
| ContentFiltering.DigitMakesMath | utils/content_filter.py:103-105 | any digit makes the text math-related |
| ContentFiltering.HasEducationalIntent | utils/content_filter.py:120-132 | no contract of its own; characterised by `EducationalIntentMeans` |
| ContentFiltering.EducationalIntentMeans | utils/content_filter.py:120-132 | intent iff some indicator is a substring |
| ContentFiltering.IsAppropriate | utils/content_filter.py:45-86 | no contract of its own; characterised by `IsAppropriateExactly` |
| ContentFiltering.IsAppropriateExactly | utils/content_filter.py:45-86 | refused iff enabled, the lowered stripped text has >= 3 chars, and a non-empty keyword occurs; a disabled filter accepts all |
| ContentFiltering.GetContentSuggestions | utils/content_filter.py:134-161 | at most 3 suggestions. Each piece of advice appears iff its test holds. None repeats, and they come in the fixed order |
| ContentFiltering.SuggestedShape | utils/content_filter.py:144-161 | the advice list built from the three tests holds each piece iff its test holds, none twice, in the fixed order |
| ContentFiltering.Allowed | utils/content_filter.py:178 | no contract of its own; characterised by `KeepAllowed`, `KeepAllowedCount` and `KeepAllowedClean` |
| ContentFiltering.KeepAllowed | utils/content_filter.py:178-179 | only whitelisted characters remain; what is kept, and in which order, is stated by `KeepAllowedCount` and `KeepAllowedAppend` |
| ContentFiltering.KeepAllowedAppend | utils/content_filter.py:178-179 | filtering is character by character: the filter of a join is the join of the filters, so input order is kept |
| ContentFiltering.KeepAllowedCount | utils/content_filter.py:178-179 | each whitelisted character is kept as often as it occurs; every other character is dropped |
| ContentFiltering.KeepAllowedClean | utils/content_filter.py:178-179 | text of whitelisted characters passes unchanged |
| ContentFiltering.SanitizeInput | utils/content_filter.py:163-187 | output whitelisted, stripped, at most 1003 chars; over 1000 filtered chars it is the first 1000, left-stripped, plus `...` |
| ConversationLogging.Shorten | utils/conversation_logger.py:151-154 | strings up to 500 stay; longer ones become the first 500 plus `...` (length 503) |
| ConversationLogging.ShortenIdempotent | utils/conversation_logger.py:151-154 | shortening twice is shortening once |
| ConversationLogging.SanitizedValue | utils/conversation_logger.py:151-154 | only a string over 500 chars changes; it stays a string of its first 500 chars plus `...`, so no value grows past 503 chars |
| ConversationLogging.SanitizedFields | utils/conversation_logger.py:146-155 | no more fields than the response has |
| ConversationLogging.SanitizedFieldsKeys | utils/conversation_logger.py:149-150 | kept keys come from the response and are not sensitive |
| ConversationLogging.SanitizedFieldsAppend | utils/conversation_logger.py:149-154 | fields are handled one by one in order |
| ConversationLogging.SanitizeDict | utils/conversation_logger.py:146-155 | the copy loop computes `SanitizedFields` |
| ConversationLogging.SanitizedResponse | utils/conversation_logger.py:144-159 | no contract of its own; characterised by `SanitizedFieldsMeans`, `SanitizeIdempotent` and `OtherResponseShort` |
| ConversationLogging.SanitizeResponse | utils/conversation_logger.py:144-159 | the method computes `SanitizedResponse` |
| ConversationLogging.SanitizedFieldsMeans | utils/conversation_logger.py:146-155 | `api_key`, `token` and `credentials` are gone. Every other key keeps its sanitised value. Keys stay distinct |
| ConversationLogging.SanitizeIdempotent | utils/conversation_logger.py:144-159 | sanitising a sanitised response changes nothing |
| ConversationLogging.FieldsIdempotent | utils/conversation_logger.py:146-155 | filtering sanitised fields again changes nothing |
| ConversationLogging.OtherResponseShort | utils/conversation_logger.py:158-159 | any other response is `content` holding at most 500 chars of its `str`, no ellipsis |
| ConversationLogging.NewEntry | utils/conversation_logger.py:119-129 | the content is a prefix of the input of at most 1000 chars (all of it if shorter); the response is sanitised; user id, username, message type, video flag and error pass through unchanged |
| WebDemo.FindExact | web_demo.py:66-67 | the first key equal to the lowered stripped problem, or None when no key is |
| WebDemo.LongWords | web_demo.py:77 | no more long words than words |
| WebDemo.LongWordsMeans | web_demo.py:77 | exactly the words longer than 2 chars |
| WebDemo.SharesWordMeans | web_demo.py:77 | partial match iff a key word longer than 2 chars is a substring |
| WebDemo.FindPartial | web_demo.py:76-77 | the first key sharing such a word, or None |
| WebDemo.Solve | web_demo.py:61-99 | no contract of its own; characterised by `ExactMatchFirst`, `PartialMatchNext`, `NoMatchDefault`, `SolveAlwaysTagged` |
| WebDemo.SolveProblem | web_demo.py:61-99 | no contract of its own; characterised by `ExactMatchFirst`, `PartialMatchNext`, `NoMatchDefault`, `SolveAlwaysTagged` on the demo table |
| WebDemo.ExactMatchFirst | web_demo.py:63-73 | the first exact match answers, even if partial matches come earlier |
| WebDemo.PartialMatchNext | web_demo.py:76-83 | with no exact match, the first partial match answers |
| WebDemo.NoMatchDefault | web_demo.py:86-99 | with no match, the demo notice answers with type and difficulty `demo` |
| WebDemo.SolveAlwaysTagged | web_demo.py:63-99 | every answer carries the problem as typed and `ai_provider = demo` |
| WebDemo.NoticeAnswerAt | web_demo.py:86-99 | every field of the default answer reads back under its own key |
| WebDemo.DefaultTagged | web_demo.py:96-97 | the default answer carries the problem and the provider |
| Text.Strip | ai_solver.py:306 | `strip` never lengthens |
| Text.StripMeans | ai_solver.py:306 | strip keeps a contiguous piece with no whitespace at either end and drops only whitespace |
| Text.StripKeepsChars | ai_solver.py:331 | strip adds no character |
| Text.StripTrimmedText | bot.py:402 | text with no whitespace at either end is its own `strip` |
| Text.Lower | utils/content_filter.py:59 | lowering keeps the length |
| Text.ContainsOccurs | ai_solver.py:369 | `sub in s` iff `sub` occurs at some index |
| Text.ContainsAnyMeans | ai_solver.py:369 | `any(k in s ...)` iff some key occurs |
| Text.Find | ai_solver.py:309 | -1 iff absent, else the first index |
| Text.RFind | ai_solver.py:310 | -1 iff absent, else the last index |
| Text.Split | ai_solver.py:360 | at least one piece, none containing the separator |
| Text.JoinSplit | ai_solver.py:360 | joining the pieces gives back the string |
| Text.SplitWhitespace | ai_solver.py:190 | words are non-empty and hold no whitespace; content and cut points in `SplitWhitespaceKeepsContent` and `SplitWhitespaceCuts` |
| Text.CollapseWhitespace | ai_solver.py:190 | trimmed, and every whitespace character is a plain space; words and content kept, by `CollapseKeepsWords` and `CollapseKeepsContent` |
| Text.SplitWhitespaceKeepsContent | ai_solver.py:190 | the words of `s.split()` run together are `s` with every whitespace character removed |
| Text.SplitWhitespaceCuts | ai_solver.py:190 | `s` is gap, word, gap, …, word, gap: one more gap than words, every gap whitespace only, gaps between two words non-empty |
| Text.GapsCount | ai_solver.py:190 | one more gap than words |
| Text.GapsBlank | ai_solver.py:190 | every gap is whitespace only |
| Text.InnerGapsNonEmpty | ai_solver.py:190 | neighbouring words are separated by at least one whitespace character |
| Text.InterleaveGaps | ai_solver.py:190 | putting the gaps back between the words gives `s` |
| Text.LeadGapSplit | ai_solver.py:190 | `lstrip` drops a whitespace-only prefix and keeps the rest |
| Text.FirstWordSplit | ai_solver.py:190 | after the leading whitespace comes a non-empty word followed by whitespace or the end |
| Text.SplitWhitespaceStep | ai_solver.py:190 | the split is that first word, then the split of what follows it |
| Text.SplitJoinWords | ai_solver.py:190 | non-empty words without whitespace, joined by single spaces, split back into the same words |
| Text.CollapseKeepsWords | ai_solver.py:190 | `' '.join(s.split())` has the same words as `s`, in order |
| Text.CollapseKeepsContent | ai_solver.py:190 | collapsing changes only whitespace: both texts have the same non-whitespace characters in order |
| Text.Replace | bot.py:413 | no contract of its own; characterised by `ReplacePairGone` and `ReplaceSingleChar` |
| Text.ReplacePairGone | bot.py:413 | after removing `cc` left to right, no `cc` remains |
| Text.ReplaceSingleChar | bot.py:433 | one-character `replace` is character substitution |
| Text.Take | utils/conversation_logger.py:124 | `s[:n]` is a prefix of at most n items, all of s if short |
| Text.IntToString | bot.py:415 | never empty; its value and sign in `IntToStringDecimal` and `IntToStringSign` |
| Text.IntToStringDecimal | bot.py:415 | for n >= 0, `str(n)` is all decimal digits, denotes n, and starts with `0` only for n = 0 |
| Text.IntToStringSign | bot.py:415 | `str(n)` starts with `-` iff n < 0, followed by `str(-n)` |
| Text.DigitChar | bot.py:415 | the character is a decimal digit denoting d |
| Json.Get | bot.py:393 | None iff the key is absent; otherwise a stored pair |
| Json.DistinctGet | bot.py:393 | in a dict without repeated keys every stored pair reads back under its key |
| Json.SetKeys | ai_solver.py:335-339 | an existing key keeps its place, a new key goes last |
| Json.Set | ai_solver.py:335 | no contract of its own; characterised by `SetKeys`, `SetGet` and `SetDistinct` |
| Json.SetGet | ai_solver.py:335-339 | the set key reads back; others unchanged |
| Json.SetDistinct | ai_solver.py:335-339 | setting keeps keys distinct |
| Json.Iterate | bot.py:400 | iterable iff list, string or dict; a list yields its items |
| Json.Truthy | whatsapp_bot.py:369 | no contract of its own; characterised by `TruthyIffNonEmptyIteration` |
| Json.TruthyIffNonEmptyIteration | whatsapp_bot.py:369-371 | an iterable value is truthy iff iterating it yields something |
| Json.Str | bot.py:393 | `str` is empty only for the empty string; a list prints in brackets and a dict in braces |

## Left out

- I/O and concurrency are not modelled:
  - the Telegram, Flask and Twilio handlers and the HTML page;
  - the LLM and OCR calls and the image preprocessing;
  - file and SQLite logging, history and analytics;
  - the rate limiter's background task, its lazy start and `shutdown`.
  The model keeps only the pure decisions these drive.
- `json.loads`, the environment settings, Python's string `hash` and the clock (`time.time()`) are parameters. Timestamps are integers.
- `RateLimiting.RateLimiter.CheckRateLimit` and `Sweep` require a `now` no earlier than the previous call's. `time.time()` can step back when the system clock is set back; the limiter then runs on, but its windows may no longer be sorted, and the model does not follow that case.
- `RateLimiting.RateLimiter.ApplyPenalty` takes the ban's start from the check's `now`. utils/rate_limiter.py:93 reads `time.time()` again, a moment later; with whole-second timestamps the two are taken to be the same instant.
- The `timestamp` keys written by the solvers and the logger are omitted, because they come from the event loop's clock. So is the logger's `processing_time`, a float.
- Floating-point JSON numbers are not modelled. `repr` does not model quote escaping.
- `lower()` and `split()` are the ASCII case map and `str.isspace()`. Unicode case folding is not modelled.
- Regex patterns 2-4 of `_is_math_related` (utils/content_filter.py:37-39) are one abstract predicate `otherPatterns`. Pattern 1 is exactly "contains a digit". Pattern 5 is "contains one of its symbols".
- The fail-open `except` paths are not modelled: for these functions the model has no exception sources left. This covers utils/rate_limiter.py:86-89 and utils/content_filter.py:83-86.
- Exceptions are modelled only where a modelled value raises them:
  - a missing key;
  - a non-iterable `steps`, which the handlers turn into their fallback or error text.
- whatsapp_bot.py:93 calls the async `check_rate_limit` without `await`. The coroutine object is truthy, so the check never rejects a message, and `WhatsAppBot.RouteMessage` leaves it out. The replies' texts are not modelled, only the route chosen.
- ai_solver.py:194-195 only rebind `text`, which is never used again. They have no effect and the model has no counterpart.
- `_clean_extracted_text` is not idempotent: `'°' → ' degrees'` runs after whitespace collapsing, so `"30 °"` gives a double space. No idempotence is claimed.
- The step filters follow the code, not a uniform "shorter than 11 after cleanup" rule:
  - bot.py tests `len < 10` before removing `**`;
  - ai_solver.py keeps steps longer than 10.
- `ContentFiltering.IsAppropriate`: the math and intent checks only decide which log line is written, so the result does not depend on them.
- `ContentFiltering.MathTermMakesMath`, `QuestionWordMakesMath` and `DigitMakesMath` state only that these features imply "math-related". The converse is not proved.
- `WebDemo.SolveProblem`: the lemmas are stated for any table, and `SolveProblem` applies them to the fixed three-entry table. No lemma evaluates the table's words concretely. For example, the key `solve for x: 2x + 5 = 15` matches any problem containing `for`.
- `log_content_decision` (utils/content_filter.py:189-199) only logs, and is not modelled.
