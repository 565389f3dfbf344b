# Parroview front end: the decision and data logic, verified

Parroview is a web app where researchers create interview studies, share
a generated interview link, and read the transcripts and AI insights of
the interviews their participants complete. Its front end is React code
around calls to remote services: Airtable, Auth0, two AWS Lambda
endpoints and Stripe. Inside that code there is a small core of decision
and data logic. This project models that core in Dafny and proves what
it promises. Every remote result is an input.

Records are `{id, fields}`, where the fields map column names to JavaScript
values: `undefined`, `null`, a string, a number or a boolean. JavaScript's
truthiness and `===` are stated over those values. String `split`, `join`
and `replace` are scanning functions (module `Strings`). Each one takes
the leftmost non-overlapping match, as JavaScript does.

| module | file | models |
|---|---|---|
| `Records` | records.dfy | values, truthiness, records, and the list updates shared by the study context and the Airtable hook |
| `Strings` | strings.dfy | `split`, `join`, `replace` (first match and global), with their laws |
| `Dates` | dates.dfy | `formatDate` over UTC components |
| `Transcript` | transcript.dfy | `ParseConversation` of the transcript modal |
| `Insight` | insight.dfy | `formatContent`, the insight request made on mount, and the message priority |
| `AirtableHook` | airtable_hook.dfy | the `useAirtableAPI` hook's state: records, loading flag, error |
| `StudyContext` | study_context.dfy | the study store; completed-interview counting; the usage gate; load failures |
| `CreateStudy` | create_study.dfy | form validation, the submitted record, the link-polling back-off, `onSubmit` |
| `EditStudy` | edit_study.dfy | the study page: session id from the path, totals, percentage, row labels, usage block |
| `Table` | table.dfy | the study table: owner filter, name cell, responses |
| `Dashboard` | dashboard.dfy | header text, usage banner with one-way dismissal, `classNames` |

Stateful source is modelled as classes with `modifies` clauses. This covers:
- the hook's and the context's record lists;
- the account's `usageBlockedAt`;
- the form's loading, failure-notice and navigation state;
- the study page's `useState` fields;
- the banner's visibility and its session-storage flag.

Counting with a mutable counter, the header's override sequence and the
link poll are methods with loops or sequential updates. Each one is
proved equal to a reference function.

## Model

| member | source | states |
|---|---|---|
| Records.Project | frontend/src/hooks/useAirtableAPI.tsx:33-37 | fetched records keep server order and count and carry only id and fields |
| Records.FailureInjective | frontend/src/hooks/useAirtableAPI.tsx:44-46 | the rethrown text keeps the underlying message: under one prefix, different messages give different texts |
| Records.FailureNamesFetch | frontend/src/contexts/StudyContext.tsx:193 | the records, transcripts and interview-user-data failures can never be mistaken for one another |
| Records.ReplaceById | frontend/src/contexts/StudyContext.tsx:153-160 | same length and order; exactly the records whose id matches become the updated record, all others are unchanged |
| Records.ReplaceByIdIdempotent | frontend/src/contexts/StudyContext.tsx:153-160 | applying the same update twice is the same as applying it once |
| Records.ReplaceByIdAbsent | frontend/src/hooks/useAirtableAPI.tsx:78-84 | an update whose id matches no record leaves the list unchanged |
| Records.WithField | frontend/src/components/EditStudy.tsx:79-86 | the filter keeps exactly the records whose column equals the value, and nothing else |
| Records.WithFieldAppend | frontend/src/components/EditStudy.tsx:79-86 | filtering distributes over concatenation, so the original order is kept |
| Records.WhereTruthy | frontend/src/components/EditStudy.tsx:266-267 | the filter keeps exactly the records whose column is truthy |
| Records.WhereTruthyAppend | frontend/src/components/EditStudy.tsx:266-267 | the truthy filter distributes over concatenation |
| Records.FindByField | frontend/src/components/EditStudy.tsx:70-77 | `find`: a found record is in the list and matches; nothing is found exactly when no record matches |
| Records.FindByFieldIsFirst | frontend/src/components/EditStudy.tsx:70-77 | the found record is the first match in list order |
| Strings.Split | frontend/src/components/InformationModal.tsx:7-9 | a split always yields at least one piece, and the first piece is a prefix of the text |
| Strings.JoinSplit | frontend/src/components/InformationModal.tsx:7-9 | joining the pieces of a split with the separator gives back the text exactly |
| Strings.SplitPiecesFree | frontend/src/components/InformationModal.tsx:7-9 | no piece of a split contains the separator |
| Strings.SplitWithoutSeparator | frontend/src/components/InformationModal.tsx:7-9 | a text without the separator splits into itself alone |
| Strings.SplitSingleIff | frontend/src/components/InformationModal.tsx:7-9 | a split has a single piece if and only if the separator does not occur |
| Strings.SplitJoin | frontend/src/components/Dashboard.tsx:18-20 | joining pieces free of a one-character separator and splitting again gives back the pieces |
| Strings.ReplaceAllIsSplitJoin | frontend/src/components/InsightModal.tsx:55-57 | a global replace is the split on the pattern joined with the replacement |
| Strings.ReplaceFirstAtFirst | frontend/src/components/InsightModal.tsx:50-54 | a non-global replace rewrites only the leftmost occurrence, and changes nothing without one |
| Strings.ReplaceFirstBySelf | frontend/src/components/InsightModal.tsx:48-49 | replacing a pattern by itself leaves the text unchanged |
| Strings.ReplaceAllRemovesChar | frontend/src/components/InsightModal.tsx:57 | a global replace of a character by text without it removes every occurrence |
| Dates.Decimal | frontend/src/utils.tsx:5 | a natural number prints as a non-empty run of digits |
| Dates.DecimalRoundTrip | frontend/src/utils.tsx:5 | reading the printed digits back gives the number |
| Dates.Pad2Digits | frontend/src/utils.tsx:7-13 | a value below 100 pads to its two decimal digits, with a leading zero below 10 |
| Dates.Pad2RoundTrip | frontend/src/utils.tsx:7-13 | the two padded characters read back as the value |
| Dates.FormatLayout | frontend/src/utils.tsx:4-13 | the output is year, '-', month+1, '-', day, ' ', hours, ':', minutes, each after the year exactly two characters |
| Dates.FormatFourDigitYear | frontend/src/utils.tsx:4-13 | with a four-digit year the text has length 16, with '-' at 4 and 7, ' ' at 10 and ':' at 13 |
| Dates.FormatRoundTrip | frontend/src/utils.tsx:4-13 | for years from 0 on, parsing the output recovers year, the 1-based month, day, hours and minutes |
| Dates.FormatInjective | frontend/src/utils.tsx:4-13 | for years from 0 on, distinct minutes-precision times never format to the same text |
| Dates.FormatIgnoresSeconds | frontend/src/utils.tsx:4-13 | seconds and milliseconds never change the output |
| Dates.FormatExample | frontend/src/utils.tsx:7 | the 0-based month 2 prints as "03" and single digits get a leading zero: "2024-03-05 14:07" |
| Dates.FormatInvalid | frontend/src/utils.tsx:4-13 | an invalid date formats as "NaN-aN-aN aN:aN" |
| Transcript.FlattenAppend | frontend/src/components/InformationModal.tsx:9 | flattening keeps the order of the nested pieces |
| Transcript.TurnCount | frontend/src/components/InformationModal.tsx:11-31 | there is at least one piece, and one turn is shown per piece after the first |
| Transcript.Reassemble | frontend/src/components/InformationModal.tsx:7-9 | re-joining the pieces with the removed markers reconstructs the transcript exactly |
| Transcript.PiecesFree | frontend/src/components/InformationModal.tsx:7-9 | no piece contains either marker |
| Transcript.NothingShownIff | frontend/src/components/InformationModal.tsx:11-31 | nothing is shown if and only if the transcript holds neither marker |
| Transcript.ParseRendered | frontend/src/components/InformationModal.tsx:6-32 | a transcript written as alternating assistant and user turns, where neither the opening text nor any turn contains either marker, parses back to exactly those turns, labelled by position, with the opening text dropped; markdown bold inside a turn is allowed |
| Transcript.PiecesRendered | frontend/src/components/InformationModal.tsx:7-15 | when no text contains either marker, such a transcript's pieces are the opening text followed by every turn's text |
| Transcript.BoldTurnShown | frontend/src/components/InformationModal.tsx:6-32 | a turn holding `**Hi**` is shown whole under its own speaker |
| Transcript.LabelIgnoresMarker | frontend/src/components/InformationModal.tsx:16-27 | the label depends on position only: text after a user marker at position 1 is labelled Assistant |
| Insight.InsertBreaks | frontend/src/components/InsightModal.tsx:56 | inserting breaks before digit-dot pairs never shortens the text |
| Insight.BreaksRoundTrip | frontend/src/components/InsightModal.tsx:56 | removing the inserted breaks gives back the original text |
| Insight.InsertBreaksUnchangedIff | frontend/src/components/InsightModal.tsx:56 | the text is unchanged if and only if no digit is followed by '.' |
| Insight.BreakBeforeDigitDot | frontend/src/components/InsightModal.tsx:56 | a break is inserted before every digit followed by '.' |
| Insight.FormatContent | frontend/src/components/InsightModal.tsx:45-61 | the result is missing exactly when the content is empty |
| Insight.FormatNonEmpty | frontend/src/components/InsightModal.tsx:47-58 | formatting non-empty content never shortens it |
| Insight.FormatNoNewline | frontend/src/components/InsightModal.tsx:57 | the formatted text contains no newline |
| Insight.HeadingsOnlyPrefix | frontend/src/components/InsightModal.tsx:48-54 | the summary and key-points substitutions change nothing; only the quotes and next-steps headings get a break |
| Insight.PrefixFirstOnly | frontend/src/components/InsightModal.tsx:50-54 | only the first occurrence of a heading gets the break prefix; later occurrences are untouched |
| Insight.DashesBroken | frontend/src/components/InsightModal.tsx:55 | every "- " becomes "<br>- " |
| Insight.Mount | frontend/src/components/InsightModal.tsx:34-43 | the insight is requested, with the content, session id and chat id, exactly when no stored insight belongs to the chat and no computed message exists |
| Insight.StoredMessage | frontend/src/components/InsightModal.tsx:92-95 | with a stored insight for the chat, the stored message is the `Insights` field of the first such insight in list order; without one, there is none |
| Insight.ChooseMessage | frontend/src/components/InsightModal.tsx:92-99 | the priority: a truthy stored message, else a truthy computed message, else "Default Message"; the choice is always truthy |
| Insight.StoredWins | frontend/src/components/InsightModal.tsx:92-99 | a truthy stored insight wins over any computed message |
| Insight.OnlyFirstStoredCounts | frontend/src/components/InsightModal.tsx:92-95 | only the first stored insight for the chat is read, even when a later one has text |
| Insight.DefaultWhenNothing | frontend/src/components/InsightModal.tsx:92-99 | the default message appears when neither a stored nor a computed message is truthy, and only then unless one of those is the default text itself |
| Insight.RenderContent | frontend/src/components/InsightModal.tsx:63-90 | the spinner is shown exactly while loading |
| Insight.FreshChatShowsDefault | frontend/src/components/InsightModal.tsx:92-103 | a chat with no stored insight and no message shows the formatted default message |
| Insight.HtmlNeverEmpty | frontend/src/components/InsightModal.tsx:101-103 | when not loading, the panel shows non-empty HTML |
| AirtableHook.RecordTable.constructor | frontend/src/hooks/useAirtableAPI.tsx:19-21 | the hook starts with no records, not loading and no error |
| AirtableHook.RecordTable.StartLoad | frontend/src/hooks/useAirtableAPI.tsx:50 | loading starts; records and error are unchanged |
| AirtableHook.RecordTable.FinishLoad | frontend/src/hooks/useAirtableAPI.tsx:40-60 | loading stops on success and on failure; records are set only on success; a failure records the prefixed message |
| AirtableHook.RecordTable.CreateRecord | frontend/src/hooks/useAirtableAPI.tsx:63-73 | a create appends exactly one `{id, fields}` at the end; a failure leaves records unchanged and sets the error |
| AirtableHook.RecordTable.UpdateRecord | frontend/src/hooks/useAirtableAPI.tsx:75-88 | an update replaces only the records with the returned id, keeping length and order; a failure leaves records unchanged and sets the error |
| AirtableHook.CreateThenFind | frontend/src/hooks/useAirtableAPI.tsx:63-69 | after a create with a fresh id the new record is found by its id and the earlier records are a prefix |
| AirtableHook.FindByIdAppend | frontend/src/hooks/useAirtableAPI.tsx:63-69 | an appended record with a fresh id is the one found by that id |
| AirtableHook.UpdateThenFind | frontend/src/hooks/useAirtableAPI.tsx:75-84 | after an update of an existing id, looking the id up gives the updated record |
| StudyContext.CompletedOf | frontend/src/contexts/StudyContext.tsx:68-77 | a study's completed count is at most the number of transcripts |
| StudyContext.CountCompleted | frontend/src/contexts/StudyContext.tsx:65-79 | the counter loop computes the count of window transcripts that are exactly complete and belong to a study the user owns |
| StudyContext.OwnedWith | frontend/src/contexts/StudyContext.tsx:66-69 | the number of the user's studies with a given session id is at most the number of studies |
| StudyContext.CompletedEmpty | frontend/src/contexts/StudyContext.tsx:65-79 | with no transcripts the count is 0 |
| StudyContext.CompletedAddTranscript | frontend/src/contexts/StudyContext.tsx:66-78 | a new transcript adds one per owned study with its session id when it is complete, and nothing otherwise |
| StudyContext.CompletedMonotone | frontend/src/contexts/StudyContext.tsx:66-78 | adding a transcript never lowers the count |
| StudyContext.CompletedIgnores | frontend/src/contexts/StudyContext.tsx:70-74 | an incomplete transcript, or one for no study of the user, leaves the count unchanged |
| StudyContext.CompletedIgnoresOthersStudy | frontend/src/contexts/StudyContext.tsx:66-69 | another user's study adds nothing to the count |
| StudyContext.Seconds | frontend/src/contexts/StudyContext.tsx:119 | the stored seconds are the floor of the milliseconds over 1000 |
| StudyContext.GateCalls | frontend/src/contexts/StudyContext.tsx:81-123 | at most three calls, and calls are made if and only if the count has reached the quota |
| StudyContext.GatePatchesIff | frontend/src/contexts/StudyContext.tsx:92-123 | the block is written if and only if the quota is reached, a `sub` exists and no block is set, and then it writes the current seconds |
| StudyContext.Issued | frontend/src/contexts/StudyContext.tsx:84-123 | the issued requests are a prefix of the planned ones, ending at the first that fails |
| StudyContext.PatchNeedsReads | frontend/src/contexts/StudyContext.tsx:84-123 | the PATCH is issued if and only if the gate would write and the token and user requests both succeeded |
| StudyContext.Account.constructor | frontend/src/contexts/StudyContext.tsx:104-107 | the account starts with the stored block time |
| StudyContext.Account.Gate | frontend/src/contexts/StudyContext.tsx:81-123 | the gate issues the reference calls up to the first that fails; a set block is never overwritten; otherwise the block becomes the current seconds exactly when the quota is reached, a `sub` exists and no request fails before the PATCH completes |
| StudyContext.GateOnce | frontend/src/contexts/StudyContext.tsx:105-123 | after one write, at least one second into the epoch, no later gate writes again |
| StudyContext.GateZeroSecondsRewrites | frontend/src/contexts/StudyContext.tsx:105-115 | a block written within the epoch's first second stores 0, which reads as unset, so the next gate writes again |
| StudyContext.LoadFailure | frontend/src/contexts/StudyContext.tsx:48-60 | there is an error exactly when a subscription date is missing or out of range or a fetch failed; an invalid date gives the unprefixed "Invalid time value", otherwise a failed study or window fetch reports its prefixed message |
| StudyContext.LoadBeforeClaimsFails | frontend/src/contexts/StudyContext.tsx:200-205 | a load before the claims arrive fails with "Invalid time value" whatever the fetches return, and that error differs from every rethrown fetch failure |
| StudyContext.StudyStore.constructor | frontend/src/contexts/StudyContext.tsx:20-26 | the store starts empty, not loading, without error or count |
| StudyContext.StudyStore.CreateStudy | frontend/src/contexts/StudyContext.tsx:133-145 | a create appends exactly one record at the end and returns it; a failure returns nothing, leaves records unchanged and sets the error |
| StudyContext.StudyStore.UpdateStudy | frontend/src/contexts/StudyContext.tsx:147-165 | an update succeeds exactly when the server returned a record, which replaces the records with its id; a failure leaves records unchanged and sets the error |
| StudyContext.StudyStore.FetchStudies | frontend/src/contexts/StudyContext.tsx:167-195 | a fetch replaces the records wholesale with the projected list and returns it; a failure returns the prefixed error and leaves records unchanged |
| StudyContext.StudyStore.Load | frontend/src/contexts/StudyContext.tsx:48-131 | loading always stops; records are set whenever the studies arrive; without a load failure the transcripts and the completed count are stored and the gate's requests are issued up to the first that fails, whose error is recorded; with one, that failure is the error and the gate is not reached |
| CreateStudy.Validate | frontend/src/components/CreateStudy.tsx:66-96 | a field has an error if and only if it fails its rule, and then its fixed message |
| CreateStudy.CheckAllAgrees | frontend/src/components/CreateStudy.tsx:69-94 | the sequence of independent checks records exactly the failing checked fields, each with its message |
| CreateStudy.ValidateEmptyIff | frontend/src/components/CreateStudy.tsx:66-96 | there are no errors if and only if every required field is truthy and the redirect URL is empty or valid |
| CreateStudy.ValidateIgnoresPrompt | frontend/src/components/CreateStudy.tsx:66-96 | the message prompt is never validated |
| CreateStudy.EmptyUrlAccepted | frontend/src/components/CreateStudy.tsx:75-79 | an empty redirect URL never yields an error |
| CreateStudy.InitialValues | frontend/src/components/CreateStudy.tsx:55-65 | a new study's form starts with every required field empty |
| CreateStudy.SubmittedFields | frontend/src/components/CreateStudy.tsx:98-109 | the submitted record carries the user's email |
| CreateStudy.EditRoundTrip | frontend/src/components/CreateStudy.tsx:55-65 | editing a study saved from the form starts from exactly the values submitted: the column names of the submission and the initial values agree |
| CreateStudy.Delay | frontend/src/components/CreateStudy.tsx:122 | every re-check waits at least a second |
| CreateStudy.DelayDoubles | frontend/src/components/CreateStudy.tsx:122 | the first delay is 1000 ms and each retry doubles it |
| CreateStudy.Delays | frontend/src/components/CreateStudy.tsx:121-131 | the schedule after n attempts holds n delays, the k-th being 2^k·1000 ms |
| CreateStudy.TotalWait | frontend/src/components/CreateStudy.tsx:121-131 | the delays of n attempts sum to 2^n·1000 − 1000 ms |
| CreateStudy.Settle | frontend/src/components/CreateStudy.tsx:123-136 | the poll stops at the first attempt whose fetch fails or whose newest study has a link, and no earlier |
| CreateStudy.LinkedStudy | frontend/src/components/CreateStudy.tsx:133-136 | the study the form navigates to has a truthy Generated Link |
| CreateStudy.Fetched | frontend/src/components/CreateStudy.tsx:123-124 | every fetch counted as completed succeeded |
| CreateStudy.SettleAt | frontend/src/components/CreateStudy.tsx:123-136 | where the poll stops decides the fetch count, whether it navigates and to which study |
| CreateStudy.Text | frontend/src/components/CreateStudy.tsx:135 | interpolation shows a string as itself; other values print without a slash |
| CreateStudy.StudyForm.constructor | frontend/src/components/CreateStudy.tsx:17-22 | the form starts from the edited study, not loading, with no notice and no navigation |
| CreateStudy.StudyForm.PollForLink | frontend/src/components/CreateStudy.tsx:121-137 | the poll waits the back-off delays up to where it stops, refreshes the store once per successful fetch, and on a linked study stops loading and navigates to its page |
| CreateStudy.StudyForm.Submit | frontend/src/components/CreateStudy.tsx:110-145 | edit mode updates under the study's session id and opens its page without polling; create mode appends, polls, and shows the failure notice when the create failed and the first fetch came back |
| EditStudy.SessionIdFromPath | frontend/src/components/EditStudy.tsx:22-27 | the id is the fourth slash-separated segment, or undefined, and never holds a slash |
| EditStudy.ViewPathSplit | frontend/src/components/EditStudy.tsx:22-27 | for an id without '/', a study page's path splits into "", "study", "view" and the id |
| EditStudy.PathRoundTrip | frontend/src/components/EditStudy.tsx:22-27 | taking the navigated path as the pathname unchanged, the study page reads back the text of the session id the form navigated with, whenever that text has no slash; a non-string id comes back as its text |
| EditStudy.PathExample | frontend/src/components/EditStudy.tsx:22-27 | "/study/view/abc" gives "abc" |
| EditStudy.StudyTranscripts | frontend/src/components/EditStudy.tsx:79-86 | the study's transcripts are exactly those with its session id |
| EditStudy.CompletedCount | frontend/src/components/EditStudy.tsx:257-268 | the completed total never exceeds the started total |
| EditStudy.CompletedCountStarted | frontend/src/components/EditStudy.tsx:257-268 | a started but incomplete interview leaves the completed total unchanged |
| EditStudy.RoundPercent | frontend/src/components/EditStudy.tsx:104 | the percentage is the nearest whole number to completed·100/total, halves rounded up |
| EditStudy.PercentBounds | frontend/src/components/EditStudy.tsx:97-108 | the percentage of a share lies in 0..100, and is 0 for none and 100 for all |
| EditStudy.RowLabelsCountDown | frontend/src/components/EditStudy.tsx:339 | the row labels run n, n−1, …, 1 |
| EditStudy.RowLabelsAreOneToN | frontend/src/components/EditStudy.tsx:339 | every label from 1 to n is used, and no other |
| EditStudy.ShouldBlockUsageIsDivision | frontend/src/components/EditStudy.tsx:327-334 | the integer test equals the source's test of the block seconds against milliseconds over 1000 |
| EditStudy.NeverBlockedWithoutBlock | frontend/src/components/EditStudy.tsx:327-334 | without a block time no row is disabled |
| EditStudy.BlockedAfterGate | frontend/src/components/EditStudy.tsx:327-334 | after the gate's write every later interview is disabled; one started at or before the whole second of the write is not |
| EditStudy.BlockMonotone | frontend/src/components/EditStudy.tsx:327-334 | a later interview is disabled whenever an earlier one is |
| EditStudy.StudyPage.constructor | frontend/src/components/EditStudy.tsx:15-27 | the page reads its session id from the path and starts with percentage 0 |
| EditStudy.StudyPage.OnRecords | frontend/src/components/EditStudy.tsx:70-77 | with a session id the current study becomes the first record carrying it; otherwise nothing changes |
| EditStudy.StudyPage.OnTranscripts | frontend/src/components/EditStudy.tsx:79-86 | a non-empty transcript list replaces the study's transcripts with those matching; an empty one changes nothing |
| EditStudy.StudyPage.CalculatePercentage | frontend/src/components/EditStudy.tsx:97-108 | with transcripts the percentage becomes the rounded completed share, otherwise it keeps its value; it always stays within 0..100 |
| Table.NameCell | frontend/src/components/Table.tsx:91-93 | the name cell is the study name when truthy, else "Name not provided", and never blank |
| Table.Responses | frontend/src/components/Table.tsx:99-105 | a study's responses are at most the number of transcripts |
| Table.ResponsesAddTranscript | frontend/src/components/Table.tsx:99-105 | a new transcript adds one response to the studies with its session id and none to the others |
| Table.TableRows | frontend/src/components/Table.tsx:86-89 | there are never more rows than studies |
| Table.TableView | frontend/src/components/Table.tsx:25-27 | only the loading view is shown while loading |
| Table.RowsOf | frontend/src/components/Table.tsx:86-105 | one row per study, in order |
| Table.RowsAreOwnStudies | frontend/src/components/Table.tsx:86-89 | the rows are exactly the rows of the user's own studies, in list order |
| Table.OthersHidden | frontend/src/components/Table.tsx:86-89 | another user's study never adds a row, wherever it stands |
| Dashboard.HeaderText | frontend/src/components/Dashboard.tsx:27-62 | the override sequence gives the header by priority: none for view and profile paths, then edit, then create, then "Your studies" |
| Dashboard.ViewPageHasNoHeader | frontend/src/components/Dashboard.tsx:56-58 | a study's own page has no header |
| Dashboard.MeWins | frontend/src/components/Dashboard.tsx:48-62 | any path containing "me" gets an empty header, even an edit or create path |
| Dashboard.DefaultWhenNoMatch | frontend/src/components/Dashboard.tsx:27 | a path matching no test keeps "Your studies" |
| Dashboard.BannerMatchesGate | frontend/src/components/Dashboard.tsx:80-84 | until dismissed, the banner shows exactly when the usage gate acts on the same count and quota |
| Dashboard.UsageBanner.constructor | frontend/src/components/Dashboard.tsx:29-31 | the banner starts visible exactly when no dismissal is stored |
| Dashboard.UsageBanner.Dismiss | frontend/src/components/Dashboard.tsx:33-36 | dismissing hides the banner for every count and quota and stores the flag |
| Dashboard.DismissThenRemount | frontend/src/components/Dashboard.tsx:29-36 | once dismissed, a later mount in the same session never shows the banner |
| Dashboard.Kept | frontend/src/components/Dashboard.tsx:19 | filtering never adds entries |
| Dashboard.KeptAppend | frontend/src/components/Dashboard.tsx:19 | the kept names keep their order across concatenation |
| Dashboard.ClassNamesDropsFalsy | frontend/src/components/Dashboard.tsx:19 | a falsy entry contributes nothing, wherever it stands |
| Dashboard.ClassNamesSplit | frontend/src/components/Dashboard.tsx:18-20 | with space-free names and at least one name kept, splitting the result on spaces gives back the kept names |

## Left out

- Remote services are inputs, not calls. The Airtable fetch, create and update results are `Result` values. The Auth0 token, user and PATCH requests are returned as a list of calls. The insight Lambda and Stripe checkout are not modelled.
- StudyContext.Account.Gate: which gate request fails, and with what message, is an input. This covers a rejected fetch, a reply that is not JSON, and a user without `app_metadata`. The model does not derive failures from HTTP status codes.
- The subscription-window filter runs on the server (`filterByFormula`), so the windowed transcript list is an input.
- `Date.parse`, `new Date`, `Date.now` and `new URL` belong to the JavaScript library. Times are integer milliseconds or UTC components, with `None` for an unparsable date. URL validity is a function parameter.
- EditStudy.PathRoundTrip: navigation is taken to put its path into `location.pathname` unchanged. The router's split at '?' or '#' and the browser's percent-encoding of spaces, '%' and non-ASCII characters are not modelled, so an id holding any of them does not read back. An id that is not a string is read back as its text, for example `"5"` for the number 5. It then never matches the page's `===` lookups, and the page keeps showing its loading state.
- EditStudy.RoundPercent: `Math.round` over floating-point division is modelled as exact round-half-up on integers. Floating-point rounding error is not modelled.
- JavaScript `null` for `usageBlockedAt` or `interviewCount` compares as 0, so it corresponds to `Some(0)`; `undefined` corresponds to `None`. With a `null` block time the study page disables every row, because 0 is below every creation time after the epoch. The gate, by contrast, reads `null` and 0 as unset (see `GateZeroSecondsRewrites`).
- A subscription date is `None` when the claim is missing. Any other claim value, such as `null` or a numeric string, is converted to its number by the caller.
- Timers are not modelled: the notification auto-hide and the real waiting between polls. The poll records the delays it would wait instead.
- CreateStudy.StudyForm.PollForLink: the poll is bounded by the sequence of fetch results given to it. The source retries without limit while no link appears.
- CreateStudy.StudyForm.Submit: a first poll fetch that throws rejects `onSubmit`, so the notice is never shown and loading stays on. The model leaves both flags as they are.
- StudyContext.StudyStore.UpdateStudy: the id argument (the form passes a Session ID) is not used to choose the record. The server's returned record decides the replacement.
- StudyContext.LoadFailure: `Promise.all` rejects with whichever fetch fails first in time, which the model cannot know. The model takes the first failure in list order.
- Transcript.ParseRendered: the round trip is proved for texts that contain neither `**Assistant**: ` nor `**User**: `. The modal cuts a text that holds a marker at that marker, so such a turn is not shown whole. Bold markdown and other stars are allowed.
- Concurrency is not modelled: overlapping requests, updates after unmount, and two gates writing at once.
- JSX rendering, routing, Auth0 claim retrieval and React hook mechanics are not modelled. Each effect is a method called at the point where it runs.
- Not part of this model, because they are wiring or display around the lookups above:
  - the effects `completedTranscriptsForThisSession` and the insight list of the study page, whose results the page does not render;
  - `fetchInsights`;
  - the profile, sign-up, verification, success, interview and usage-banner components.
