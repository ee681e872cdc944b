# TaskSync core in Dafny

This project models two parts of the TaskSync VS Code extension and proves properties of them.

**Plan reviews.** The `plan_review` language-model tool takes a plan from the agent. It gives the review an id of the form `pr_<time>_<random>` and announces it to the sidebar and remote clients. It then waits in a registry of pending reviews (a map from review id to a one-shot callback) until a surface answers or the agent cancels. Finally it maps the answer to the agent's status vocabulary, records it in the session history, announces completion and removes the entry.

- The registry is a class with a map field (`PlanReviewRegistry`). Each callback is a `Slot` object that keeps the first result delivered to it.
- The coordinator (`PlanReview.PlanReview`) is an imperative method. It is proved against a specification function, `PlanReview.Lifecycle`.
- The clock, the random text, the agent's cancellation token and the answers from the surfaces are parameters. The surface answers and the cancellation form one event trace, in order.
- The calls to the webview provider are returned as a log of effects. A provider call that throws is named by a `Fault` parameter.

**Instruction injection.** The extension places its tool instructions where Copilot reads them. The setting `tasksync.instructionInjection` chooses the place:

- the TaskSync block between `<!-- [TaskSync] START -->` and `<!-- [TaskSync] END -->` in `.github/copilot-instructions.md` (`CopilotInstructions`, with the extension's markers in `TaskSyncLayout`);
- a `[TaskSync]`-tagged entry of the `github.copilot.chat.codeGeneration.instructions` setting (`CodeGenSettings`);
- nothing, when the method is `off`.

`InstructionInjection` models the dispatch between these. It first migrates the old global settings value, then removes the instructions from one place and injects them into the other, or removes them from both. File reads and setting reads are inputs. File and setting writes are returned decisions, and `InstructionInjection.Environment` collects them. `RemoteUrl` models which remote-server URL the extension shows.

`JsString` gives the JavaScript string operations the code relies on their ECMAScript meaning:

- `indexOf` searches from the start unless given a position;
- `substring` clamps its arguments and swaps them when the end lies before the start;
- `trim` strips ECMAScript white space and line terminators;
- `x || y` treats an empty string as false.

The model keeps these facts about the code, including where the code departs from its own type declarations:

- When the agent cancels a waiting review, completion is announced twice: once by the cancellation handler, and again by the normal path after it records the `cancelled` result. `PlanReview.CancelWhileWaiting` states the four calls.
- A `closed` answer that carries revisions is returned as `cancelled` with those revisions. The code keeps `requiredRevisions` whatever the status (`PlanReview.ClosedKeepsRevisions`).
- `PlanReviewToolResult` in `src/planReview/types.ts` declares a `nextStep` field, but the code never sets it, so `PlanReviewTypes.ToolResult` has no such field.
- The status test also accepts the action `cancelled`, although `PlanReviewPanelResult` in the same file does not declare it as an action. `PlanReview.MapStatus` follows the runtime string test.

The file edits differ from the code in one respect. The code searches for the END marker from the start of the file, and the model's `CopilotInstructions.LocateSection` searches for it after the first START. The two differ only on a file with a stray END: an END marker that begins before the first START has ended. "## Findings" shows what the code does then. On every other file the code edits what the model edits:

- `CopilotInstructions.UpdateAsWrittenAgrees` proves the code's update equal to the model's update.
- `CopilotInstructions.RemoveAsWrittenAgrees` proves the same for removal.

"## Left out" names each member stated with the corrected search.

## Model

| member | source | states |
|---|---|---|
| PlanReviewRegistry.Slot.Deliver | src/planReview/index.ts:16 | A pending review's callback settles once: the first result delivered is kept and later ones are ignored |
| PlanReviewRegistry.Registry.Register | src/planReview/index.ts:74-76 | Registering a review adds exactly its id, mapped to its fresh unresolved callback; the registry invariant is kept |
| PlanReviewRegistry.Registry.Resolve | src/planReview/index.ts:22-30 | `resolvePlanReview` returns true exactly when the id was pending; the callback then receives the result and the id, and only that id, is removed from the registry |
| PlanReviewRegistry.Registry.Unregister | src/planReview/index.ts:112-115 | The cleanup in `finally` removes the id, whether or not it is still present, and nothing else |
| PlanReviewRegistry.ResolveTwice | src/planReview/index.ts:22-30 | Resolving the same id twice succeeds the first time only; the callback gets the first result |
| PlanReview.DecimalRoundTrip | src/planReview/index.ts:9 | The decimal rendering of `Date.now()` in an id reads back as the same number |
| PlanReview.GenerateReviewId | src/planReview/index.ts:8-10 | Every review id starts with `pr_` |
| PlanReview.ReviewIdDeterminesParts | src/planReview/index.ts:8-10 | Two equal ids come from the same clock reading and the same random text, so ids made at different times differ |
| PlanReview.ParseStatusName | src/planReview/types.ts:20 | Each of the four status names parses back to its status |
| PlanReview.MapStatus | src/planReview/index.ts:79-86 | The action string passes through as the status exactly when it is one of the listed names, and the status is `cancelled` otherwise (for example for `closed`) |
| PlanReview.ReviewTitle | src/planReview/index.ts:50 | The title is the given one unless it is absent or empty, then `Plan Review`; it is never empty |
| PlanReview.FirstEnding | src/planReview/index.ts:53-76 | The wait ends at the first event that is an answer for this review or a cancellation, and no earlier event ends it |
| PlanReview.FirstAnswerAppend | src/planReview/index.ts:22-30 | A review's first answer in a trace is the first answer before a new event, or that event if it is the first answer |
| PlanReview.OnCancellation | src/planReview/index.ts:53-65 | The cancellation handler gives a still-pending review a `closed` result with no revisions and drops its entry; it announces `cancelled` completion whenever a provider is present |
| PlanReview.ProcessEvent | src/planReview/index.ts:22-30 | One event while waiting: an answer for this review or a cancellation settles it with the delivered result; an answer for another review settles only that one; a cancellation is announced |
| PlanReview.AwaitResolution | src/planReview/index.ts:74-76 | The wait consumes events up to and including the first that ends it, and the callback holds that event's result; with no such event it is still waiting and the entry is still present |
| PlanReview.RegisterAndAwait | src/planReview/index.ts:74-76 | Registering then waiting: the answer is the first ending event's result, and the entry is present exactly while no answer has come |
| PlanReview.FinishReview | src/planReview/index.ts:78-115 | After the answer: the result maps the status and keeps the revisions and the id, the history record and completion announcement follow, a throwing provider turns the result into `cancelled` with no revisions, and the entry is removed |
| PlanReview.Conduct | src/planReview/index.ts:67-115 | Announce, wait and finish behave as `AwaitAndFinish` says, and the entry is present exactly while the review still waits |
| PlanReview.PlanReview | src/planReview/index.ts:37-116 | `planReview` makes the calls, returns the result and consumes the events `Lifecycle` gives for the generated id; a cancelled token returns `cancelled` with an empty id and leaves the registry alone; the review's entry is present exactly while it waits, and other reviews' entries follow their own answers |
| PlanReview.Lifecycle | src/planReview/index.ts:37-116 | A cancelled token returns `cancelled` with an empty id, makes no call and consumes no event; otherwise the pending announcement with the title comes first, every result returned carries the review's id, and no more events are consumed than were given |
| PlanReview.AwaitAndFinish | src/planReview/index.ts:74-104 | The review keeps waiting, with no call made, exactly when no event ends its wait; otherwise it consumes events up to and including the first one that does, and returns a result carrying its id |
| PlanReview.OthersFollowForgetsOwn | src/planReview/index.ts:16 | What the other pending reviews' entries hold does not depend on the review's own entry in the table they started from |
| PlanReview.FirstEndingExtend | src/planReview/index.ts:74-76 | Events after the one that ends the wait do not move it |
| PlanReview.LaterEventsHaveNoEffect | src/planReview/index.ts:22-30 | Once a review has its answer, later events (a second answer, a late cancellation) change nothing about it |
| PlanReview.ReturnedResultMatchesAnnouncements | src/planReview/index.ts:69-104 | With a provider and no fault, the review consumes the events up to the first that ends its wait, is announced first, and its history record and completion announcement come last and carry the returned status and the revisions of the answer |
| PlanReview.CancelWhileWaiting | src/planReview/index.ts:53-104 | A cancellation while waiting returns `cancelled` with no revisions, and completion is announced twice, once by the handler and once after recording |
| PlanReview.FailureKeepsReviewId | src/planReview/index.ts:105-111 | A provider call that throws makes the review return `cancelled` with no revisions but with its own id |
| PlanReview.SurfaceApproves | src/planReview/index.ts:37-104 | An untitled review approved by the sidebar returns `approved` after announcing it as `Plan Review`, recording it and announcing completion |
| PlanReview.ClosedKeepsRevisions | src/planReview/index.ts:79-92 | A `closed` answer returns `cancelled` but keeps the revisions it carried |
| PlanReview.ValidatePlan | src/planReview/index.ts:133 | A plan passes exactly when it is present, a string, and not only whitespace, and it passes unchanged |
| PlanReview.InvokePlanReviewTool | src/planReview/index.ts:126-157 | Invalid input is answered with `cancelled`, an empty id and the validation error, before any id, announcement or registration; valid input gets what the review returns |
| CopilotInstructions.LocateSectionFindsFirst | src/extension.ts:456-461 | The block starts at the first START marker and ends with the first END marker after it; there is no block exactly when START is missing or no END follows the first START |
| CopilotInstructions.LocateSection | src/extension.ts:456-461 | A block found lies inside the file and is at least as long as the two markers together |
| CopilotInstructions.UpdateSection | src/extension.ts:456-467 | An update never deletes or prompts, and writes only when a whole block is found and reads differently from the new one |
| CopilotInstructions.UpdateSectionAsWritten | src/extension.ts:456-467 | The update as the code writes it never deletes or prompts, and writes only when both markers are found by `indexOf` from the start of the file |
| CopilotInstructions.LocateWrittenSection | src/extension.ts:462-464 | A block the extension wrote is found again exactly where it was written, whatever follows it, as long as the text holds no END marker |
| CopilotInstructions.Inject | src/extension.ts:430-502 | Blank text changes nothing; nothing is ever deleted; the file is created or appended to only with the user's consent, and when the user is asked and declines the method is reset to `off` (and only then); with consent, the block is appended after a blank line to an existing file, or a file is created with the header line and the block; with START present the user is not asked, and the file is updated in place or left alone, and left alone when no END follows START |
| CopilotInstructions.SectionPresentNeverPrompts | src/extension.ts:456-470 | When the START marker is present the user is not asked, and the answer makes no difference |
| CopilotInstructions.WrittenHoldsStart | src/extension.ts:456-497 | Every file the injection writes, by update, append or creation, holds the START marker |
| CopilotInstructions.UpdateReplacesOnlySection | src/extension.ts:458-467 | An update writes exactly when the block differs from the new one; what it writes keeps everything before and after the block and holds the new block, found again where the old one was, for an instruction text that holds no END marker |
| CopilotInstructions.NewSectionInjective | src/extension.ts:462-463 | Two new blocks are equal only when their instruction texts are, so the comparison with the current block compares the texts |
| CopilotInstructions.AppendedSectionLocated | src/extension.ts:487-491 | The block appended after a blank line is found right after that blank line, for an instruction text that holds no END marker |
| CopilotInstructions.NoChangeWhateverAnswer | src/extension.ts:472-485 | A run that changes nothing would change nothing with the other answer either |
| CopilotInstructions.DeclinedLeavesNothingToRemove | src/extension.ts:472-485 | When the user declines, there is no block in the file, so removal finds nothing |
| CopilotInstructions.SettledSectionKept | src/extension.ts:463 | A file that already holds the right block is left as it is |
| CopilotInstructions.UpdatedSectionSettled | src/extension.ts:458-467 | After an update, the next injection changes nothing, for an instruction text that holds no END marker |
| CopilotInstructions.AppendedSectionKept | src/extension.ts:487-491 | After an append, the next injection changes nothing, whatever the answer, for an instruction text that holds no END marker |
| CopilotInstructions.CreatedFileKept | src/extension.ts:492-497 | After a created file, the next injection changes nothing, whatever the answer, for an instruction text that holds no END marker |
| CopilotInstructions.InjectIdempotent | src/extension.ts:430-502 | Whatever injection writes, the next injection with the same text leaves unchanged, whatever the answers |
| CopilotInstructions.CollapseTrailingNewlines | src/extension.ts:528 | The tidied text before the cut no longer ends with two newlines and is no longer than the original |
| CopilotInstructions.CollapseTrailingDrops | src/extension.ts:528 | The tidied text before the cut is a prefix of the original, and only newlines were dropped after it |
| CopilotInstructions.CollapseLeadingNewlines | src/extension.ts:529 | The tidied text after the cut no longer starts with two newlines and is no longer than the original |
| CopilotInstructions.CollapseLeadingDrops | src/extension.ts:529 | The tidied text after the cut is a suffix of the original, and only newlines were dropped in front of it |
| CopilotInstructions.Remainder | src/extension.ts:531-539 | What is left is deleted exactly when it is empty or only the header; otherwise it is written with one newline at the end |
| CopilotInstructions.Cut | src/extension.ts:524-539 | Once a block has been cut out, the file is always either rewritten or deleted |
| CopilotInstructions.RemoveDecision | src/extension.ts:507-544 | Removal changes nothing exactly when the file is unreadable or has no block, and it never resets the method |
| CopilotInstructions.RemoveFromInstructionsFile | src/extension.ts:507-544 | The removal with its two newline loops decides what `RemoveDecision` decides |
| CopilotInstructions.TrimCollapsedTrailing | src/extension.ts:528-531 | Dropping trailing newlines does not change the trimmed text |
| CopilotInstructions.RemoveUndoesAppend | src/extension.ts:524-539 | Removing an appended block leaves the original file, trimmed, with one newline at the end, or deletes it when that is empty or only the header, for an instruction text that holds no END marker |
| CopilotInstructions.RemoveUndoesCreate | src/extension.ts:533-536 | Removing the block from a file the extension created deletes the file, for an instruction text that holds no END marker |
| CopilotInstructions.UpdateAsWrittenOutOfOrder | src/extension.ts:458-465 | As written, with an END marker before the first START, an update inserts a new block in front of the old one |
| CopilotInstructions.UpdateOutOfOrder | src/extension.ts:458-465 | Corrected, the same file has its block replaced in place, or is left alone when the text is unchanged |
| CopilotInstructions.RemoveAsWrittenOutOfOrder | src/extension.ts:519-538 | As written, removal on a file that opens with a stray END marker rewrites it with the block still in it |
| CopilotInstructions.RemoveOutOfOrder | src/extension.ts:519-538 | Corrected, removal cuts the block out and keeps only the stray END line |
| CopilotInstructions.EndSearchAgrees | src/extension.ts:458-459 | Without a stray END, `indexOf(END)` from the start of the file finds the first END after the first START |
| CopilotInstructions.UpdateAsWrittenAgrees | src/extension.ts:456-467 | Without a stray END, the update as written decides exactly what the corrected update decides |
| CopilotInstructions.RemoveAsWrittenAgrees | src/extension.ts:517-539 | Without a stray END, the removal as written decides exactly what the corrected removal decides |
| CopilotInstructions.RemoveSectionAsWritten | src/extension.ts:517-539 | The removal as the code writes it changes nothing exactly when `indexOf` misses START or END, and otherwise rewrites or deletes the file |
| TaskSyncLayout.TaskSyncValid | src/extension.ts:379-380 | The extension's markers and header meet every condition the general proofs rely on |
| TaskSyncLayout.EndOpensOnce | src/extension.ts:380 | The END marker holds `<` only as its first character, so no START marker can begin inside it |
| TaskSyncLayout.UpdateAsWrittenNeverSettles | src/extension.ts:459 | As written, with a stray END marker before the block, every run inserts yet another block and the file never settles |
| TaskSyncLayout.UpdateAfterStrayEnd | src/extension.ts:459 | Corrected, the same file is updated in place and then left alone |
| TaskSyncLayout.RemoveAsWrittenKeepsSection | src/extension.ts:520 | As written, removal on a file with a stray END marker before the block leaves the block in the file |
| TaskSyncLayout.RemoveAfterStrayEnd | src/extension.ts:520 | Corrected, removal on the same file takes the block out |
| CodeGenSettings.TaskSyncEntryTagged | src/extension.ts:554-564 | The entry injection writes carries the `[TaskSync]` marker |
| CodeGenSettings.FindTagged | src/extension.ts:559-561 | `findIndex` gives -1 exactly when no entry has a text with the marker, and otherwise the first such entry |
| CodeGenSettings.Upsert | src/extension.ts:549-579 | Blank text writes nothing; every write is a list whose first tagged entry is exactly `{ text: "[TaskSync] " + text }` |
| CodeGenSettings.UpsertAppendsOrSettles | src/extension.ts:563-573 | With no tagged entry, the entry is appended after the others; a first tagged entry that already reads the same is left alone; one that reads differently is replaced in place by the new entry |
| CodeGenSettings.UpsertReplacesOnlyFirstTagged | src/extension.ts:570-573 | A replacement keeps the length and every other entry, and changes only the first tagged one |
| CodeGenSettings.UpsertIdempotent | src/extension.ts:549-579 | Injecting again into what injection wrote writes nothing |
| CodeGenSettings.RemoveTagged | src/extension.ts:588-590 | The filter keeps exactly the entries without the marker, never grows the list, and keeps its length exactly when nothing is tagged |
| CodeGenSettings.RemoveTaggedAppend | src/extension.ts:588-590 | Filtering distributes over concatenation |
| CodeGenSettings.UpsertThenRemoveTagged | src/extension.ts:549-600 | Injection touches only tagged entries: filtering its result gives what filtering the original gives |
| CodeGenSettings.RemoveFromCodeGen | src/extension.ts:584-600 | Removal writes exactly when some entry is tagged; it writes `undefined` rather than an empty list, and what it leaves holds no tagged entry |
| CodeGenSettings.RemoveKeepsUntagged | src/extension.ts:588-594 | What removal leaves is exactly the untagged entries, in order |
| CodeGenSettings.RemoveIdempotent | src/extension.ts:584-600 | A second removal writes nothing |
| CodeGenSettings.Migrate | src/extension.ts:606-623 | The migration writes exactly when the global value is set and holds a tagged entry |
| CodeGenSettings.MigrateAgreesWithRemove | src/extension.ts:612-617 | On a set global value, the migration decides exactly what removal decides |
| InstructionInjection.ParseMethod | src/extension.ts:389-411 | The file method is chosen exactly for `copilotInstructionsMd`, the setting method exactly for `codeGenerationSetting`, and any other or unset value means `off` |
| InstructionInjection.HandleInstructionInjection | src/extension.ts:387-416 | The handler never changes the instruction text or the workspace folder; the method can only be changed to `off`; without a workspace folder the file is untouched |
| InstructionInjection.MigrateStep | src/extension.ts:606-623 | The migration writes only the global value, and only when that value is set and holds a tagged entry |
| InstructionInjection.RemoveSettingsStep | src/extension.ts:584-600 | Removal from the settings writes only the workspace value, and only when the effective list holds a tagged entry |
| InstructionInjection.InjectSettingsStep | src/extension.ts:549-579 | Injection into the settings writes only the workspace value, and nothing for a blank text |
| InstructionInjection.RemoveFileStep | src/extension.ts:507-544 | Removal from the file changes only the file, and nothing without a workspace folder |
| InstructionInjection.InjectFileStep | src/extension.ts:430-502 | Injection into the file changes only the file and the method; the method changes only to `off` after a decline, and the file only with a workspace folder |
| InstructionInjection.SettingMethodWithStaleRead | src/extension.ts:392-405 | The setting method with the migration's write landing after the read: the global value and the file end as in the in-order handler |
| InstructionInjection.StaleReadDropsEntry | src/extension.ts:392-405 | With no workspace value and only the current entry at the global level, the stale read leaves no tagged entry, while the in-order handler leaves one |
| InstructionInjection.MigrateCleansGlobal | src/extension.ts:606-623 | After the migration the global value holds no tagged entry |
| InstructionInjection.RemoveSettingsCleans | src/extension.ts:584-600 | With a clean global value, removal leaves no tagged entry in the effective list |
| InstructionInjection.HandleCleansGlobal | src/extension.ts:387-416 | Whatever the method, handling ends with no tagged entry at the global level |
| InstructionInjection.HandleClearsSettingsUnlessSettingMethod | src/extension.ts:396-411 | Under `off`, an unknown method or the file method, handling leaves no tagged entry in the effective settings list |
| InstructionInjection.HandleInjectsUnderSettingMethod | src/extension.ts:401-405 | Under the setting method with non-blank text, the first tagged entry of the effective list reads `[TaskSync] ` followed by the text |
| InstructionInjection.OnlyFileMethodPrompts | src/extension.ts:395-411 | Only the file method depends on the user's answer, and only a decline there sets the method back to `off` |
| InstructionInjection.HandleSettingsSettle | src/extension.ts:387-416 | Handling a second time changes no setting, whatever the method and the answers: neither instruction list nor `instructionInjection` |
| InstructionInjection.InjectionKeptOnSecondRun | src/extension.ts:396-399 | Under the file method, a first run that kept the method is followed by a second run that keeps it too, whatever the answer |
| InstructionInjection.HandleFileSettles | src/extension.ts:396-400 | Under the file method, handling a second time leaves the file as the first run left it, whatever the answers |
| RemoteUrl.FindNonLocal | src/extension.ts:249 | `find` gives the first URL without `localhost`, or nothing when every URL is local |
| RemoteUrl.NetworkUrl | src/extension.ts:249 | A URL is shown exactly when the server has one, and it is one of the server's URLs |
| RemoteUrl.NetworkUrlPrefersNetwork | src/extension.ts:249 | The URL shown is one of the server's URLs, and none only when there are none; it is exactly the first non-local URL when that one is not empty, and the first URL when every URL is local; a URL shown other than the first is non-local |
| RemoteUrl.EmptyUrlFallsBack | src/extension.ts:249 | An empty first non-local URL is falsy, so the first URL is shown |
| RemoteUrl.StartedUrl | src/extension.ts:271 | The start-up message shows the second URL unless it is missing or empty, then the first, and nothing only when there are no URLs |
| JsString.IndexOfFinds | src/extension.ts:458-459 | `indexOf` is -1 exactly when the needle does not occur, and otherwise is its first occurrence |
| JsString.IndexOf | src/extension.ts:458-459 | `indexOf` gives -1 or a position where the needle fits inside the text |
| JsString.IndexOfFrom | src/extension.ts:458-459 | `indexOf` from a position gives -1 or a position at or after it where the needle fits inside the text |
| JsString.IndexOfPastLineBreak | src/extension.ts:441 | Searching past a line break finds what searching the text after it finds, shifted, for needles without line breaks |
| JsString.TrimStart | src/extension.ts:435 | What is left after the leading whitespace is removed is empty or starts with a visible character |
| JsString.TrimStartStrips | src/extension.ts:435 | Trimming the start keeps a suffix of the text and removes only whitespace in front of it |
| JsString.TrimEnd | src/extension.ts:435 | What is left after the trailing whitespace is removed is empty or ends with a visible character |
| JsString.TrimEndStrips | src/extension.ts:435 | Trimming the end keeps a prefix of the text and removes only whitespace after it |
| JsString.TrimEmptyIff | src/extension.ts:435 | `trim()` is empty exactly when the text is all whitespace |
| JsString.Trim | src/extension.ts:435 | `trim()` is never longer than the text |
| JsString.TrimAppendWhitespace | src/extension.ts:531 | Whitespace appended to a text does not change its trim |
| JsString.Substring | src/extension.ts:461-464 | `substring` on in-range arguments is the slice between them, in either order |

## Left out

- File system, settings storage and the VS Code UI: reads are inputs and writes are returned decisions. The `.github` directory creation and the log lines are not modelled.
- InstructionInjection.HandleInjectsUnderSettingMethod and InstructionInjection.HandleSettingsSettle: proved with each settings write applied in program order. The code awaits none of the settings `update` promises. The migration's global write is followed in the same run by `removeFromCodeGenSettings`, which reads the effective list in the same tick, and by `injectIntoCodeGenSettings`, which reads it after one `await`. Both reads may still see the list from before the migration, so within one run, and not only in a later handler, a step may act on a stale list. "## Findings" shows one input where this leaves no entry at all (`InstructionInjection.StaleReadDropsEntry`). Other interleavings, and a handler that runs before an earlier run's writes land, are not modelled.
- The effective settings value is modelled as the workspace value if set, else the global value, else `[]`. Workspace-folder and language-specific levels are not modelled.
- Only the first workspace folder is used by the code; the model has a flag for whether one exists.
- The errors caught around the file edits (a failed read is modelled as a missing file; a failed write or delete is not modelled) and the `try`/`catch` in `handleInstructionInjection`.
- The plan-review tool's JSON serialisation and the outer `catch` in `invoke` for errors thrown by `planReview` itself, which the model's faults never reach.
- `Date.now()` and `Math.random().toString(36)` are parameters of `PlanReview.GenerateReviewId`; freshness of the id against the registry is a precondition of `PlanReview.PlanReview`.
- The rest of the extension (activation, the webview provider, the remote server, `hasExternalMcpClientsAsync`, `deactivate`), `src/constants/instructions.ts` (the instruction text is an input) and `esbuild.js`.
- PlanReview.PlanReview: the disposal of the cancellation listener is not modelled; a cancellation after the review has returned is simply not in its trace.
- JsString: strings are sequences of Unicode scalar values, not of UTF-16 code units; `indexOf`, `substring` and the lengths differ from JavaScript on text with characters outside the Basic Multilingual Plane, which the model does not distinguish.
- CopilotInstructions.LocateSection and CopilotInstructions.UpdateSection: the corrected search and update. `CopilotInstructions.EndSearchAgrees` and `CopilotInstructions.UpdateAsWrittenAgrees` show the code agrees on files without a stray END.
- CopilotInstructions.LocateSectionFindsFirst: characterises the corrected search, which looks for END after the first START. The code's `indexOf(END)` finds the same END whenever the file has no stray END (`CopilotInstructions.EndSearchAgrees`), and an earlier END otherwise.
- CopilotInstructions.LocateWrittenSection: the written block is found by the corrected search. The code finds it too when the text in front of the block holds no END marker (`CopilotInstructions.EndSearchAgrees`), and not otherwise.
- CopilotInstructions.Inject: its update branch is the corrected `UpdateSection`. `CopilotInstructions.UpdateAsWrittenAgrees` proves the two updates equal on files without a stray END. On a file with a stray END the code writes a further block where `Inject` changes nothing (first row of "## Findings").
- CopilotInstructions.UpdateReplacesOnlySection: stated for the corrected update. `CopilotInstructions.UpdateAsWrittenAgrees` proves the two updates equal on files without a stray END; with one, the code splices the new block in front of the old one instead.
- CopilotInstructions.AppendedSectionLocated: stated for the corrected search. The code agrees when the original file holds no END marker, since only such an END could come before the appended START.
- CopilotInstructions.SettledSectionKept: stated for the corrected update. `CopilotInstructions.UpdateAsWrittenAgrees` proves the two updates equal on files without a stray END; a file that holds the right block after a stray END is rewritten by the code (`TaskSyncLayout.UpdateAsWrittenNeverSettles`).
- CopilotInstructions.UpdatedSectionSettled: stated for the corrected update. `CopilotInstructions.UpdateAsWrittenAgrees` proves the two updates equal on files without a stray END, and only there does the code settle after an update.
- CopilotInstructions.AppendedSectionKept: stated for the corrected update. The code agrees when the original file holds no END marker.
- CopilotInstructions.InjectIdempotent: stated for the corrected update. The code settles only on files without a stray END (`CopilotInstructions.UpdateAsWrittenAgrees` proves the two updates equal on files without a stray END); on a file with one it never settles (`TaskSyncLayout.UpdateAsWrittenNeverSettles`).
- CopilotInstructions.RemoveDecision: cuts out the block found by the corrected search. `CopilotInstructions.RemoveAsWrittenAgrees` proves the two removals equal on files without a stray END; with one, the code rewrites the file with the block still in it (second row of "## Findings").
- CopilotInstructions.RemoveFromInstructionsFile: its loops are proved to decide what `RemoveDecision` decides, so it follows the corrected search. `CopilotInstructions.RemoveAsWrittenAgrees` proves the two removals equal on files without a stray END.
- CopilotInstructions.RemoveUndoesAppend: stated for the corrected removal. The code agrees when the original file holds no END marker.
- InstructionInjection.HandleFileSettles: follows the corrected update and removal. The code settles under the file method only on files without a stray END (`CopilotInstructions.UpdateAsWrittenAgrees` proves the two updates equal on files without a stray END).
- CopilotInstructions.InjectIdempotent, InstructionInjection.HandleFileSettles, CopilotInstructions.UpdateReplacesOnlySection, CopilotInstructions.AppendedSectionLocated, CopilotInstructions.UpdatedSectionSettled, CopilotInstructions.AppendedSectionKept, CopilotInstructions.CreatedFileKept, CopilotInstructions.RemoveUndoesAppend and CopilotInstructions.RemoveUndoesCreate: proved for instruction texts without the END marker; a text holding that marker ends the block early, and a second run then rewrites the file.

## Findings

| source | as written | input that shows it | evidently intended | confidence | as-written member | corrected member |
|---|---|---|---|---|---|---|
| src/extension.ts:459 | The END marker is searched from the start of the file, so a stray END before the block is taken as the block's end | A file that opens with `<!-- [TaskSync] END -->` followed by a TaskSync block: each injection inserts another block in front of the old one | The END marker that closes the block is searched after the START marker, and the block is replaced in place | not executed | TaskSyncLayout.UpdateAsWrittenNeverSettles | TaskSyncLayout.UpdateAfterStrayEnd |
| src/extension.ts:520 | Removal also searches END from the start of the file. With a stray END, `substring(0, startIdx)` keeps everything before START, and the one-argument `substring(endIdx + END.length)` keeps everything after the stray END. The two pieces overlap, so the block, and whatever lies between the stray END and START, is written back | The same file: removal writes it back with the block still in it and an extra newline | Removal cuts out the block from START to the END after it | not executed | TaskSyncLayout.RemoveAsWrittenKeepsSection | TaskSyncLayout.RemoveAfterStrayEnd |
| src/extension.ts:392 | The migration's write to the global level is not awaited, and `injectIntoCodeGenSettings` can read the effective list before that write lands | Method `codeGenerationSetting`, no workspace value, and a global value holding only the entry `[TaskSync] <text>` for the current text: the stale read finds the entry in place and writes nothing, then the migration clears the global value, and no `[TaskSync]` entry is left anywhere | The migration completes before the other steps read the list, so the entry ends up in the workspace list | not executed; the outcome depends on the order in which the unawaited write and the read happen | InstructionInjection.StaleReadDropsEntry | InstructionInjection.HandleInjectsUnderSettingMethod |
