# A Dafny model of the chat assistant's core

The system is a local chat assistant with two parts. A FastAPI backend and a Next.js front end
stream an LLM's tool plan and the tool results to the browser. A desktop variant has its own
chat engine, a LangGraph agent with a sliding memory, and a file search with user feedback
(RLHF). This project models the logic at the centre of both parts as pure Dafny functions and
methods, and proves properties of it:

- **Tool plans** (`ToolPlan`, `Resolver`, `Stream`, `Executor`, `ChatEngine`):
  - the Markdown-fence unwrapping and parsing of the model's JSON tool plan;
  - the resolution of `result_<tool>` placeholders and list literals in tool arguments;
  - the storage of each tool's first text result;
  - the server-sent-event framing, including the word-by-word replay of a result;
  - the execution loop of `ollama_event_generator`, with the message it persists;
  - the desktop engine's `process_request_message` and `chat_llm`.
- **Text preprocessing** (`Chunking`, `Normalize`, `WordChunking`):
  - character-window chunking with overlap;
  - normalisation and stop-word removal;
  - the backend's noise removal and word-window chunking.
- **File metadata** (`MetadataStore`, `CommonMetadataStore`):
  - the two copies of the metadata manager: lookup, add, delete, update and categories;
  - the role and user listings.
- **Search feedback** (`SearchClassifier`):
  - classification that prefers a confirmed label;
  - result formatting into groups A, B and others;
  - the `điều chỉnh <file> <label>` feedback command.
- **Backend API** (`ChatApi`, `Message`):
  - upload naming (`os.path.splitext`, the `name(k).ext` rename loop), roles and chunk documents;
  - the file listing groups and a new conversation with its greeting;
  - the message row's SQLite form.
- **Agent memory** (`History`): the ten-turn history window and the prompt built from it.
- **Front end** (`EventBus`, `Timer`): the event bus and the elapsed-time display.

External behaviour enters as function-typed parameters. This covers:

- `json.loads`, `json.dumps` and `ast.literal_eval`;
- the MCP tool host and the LLM reply;
- `unidecode` and the stop-word list;
- Unicode `\w`;
- the classifier, the directory walk and file modification times;
- Python's `str.lower` and `str.upper` in the file search and the feedback command, which map every cased Unicode letter;
- the clock, identifiers and which callbacks throw.

Exceptions become `Option`/`Result` values, or a `false` "finished" flag where a generator stops.

Some behaviour a reader might expect is not in the code. The model follows the code:

- The parsed tool plan is never sorted by its `"order"` field. Steps run in list order (`ToolPlan.NoSortingByOrder`).
- Tool results carry no error flag that aborts the loop. Only an exception stops it. A result with no text item makes `save_response_to_dict` return `None`, and the `async for` over it raises, so nothing after it runs and no assistant message is persisted (`Executor.ExecuteStep`, `Executor.Generate`).
- A search that finds nothing does not abort the plan. The plan holds only tool calls; there are no message or error steps.
- The role check of an upload compares the user name with `"admin"`, the first spelling of `RoleName.ADMIN`.

## Model

| member | source | states |
|---|---|---|
| JsonValue.Get | chatbot_backend/app/api/model_provider.py:47-49 | `dict.get` finds nothing exactly when no entry has the key, and otherwise returns the value of an entry with that key |
| JsonValue.ReprStr | chatbot_backend/app/api/model_provider.py:104 | how `{tool_order}` shows a string inside a list or dict (`repr`). The quotes are `"` exactly when the text holds `'` and no `"`, and the same quote closes the literal. Reading the literal back with the escapes Python's parser knows gives the text again |
| JsonValue.UnescapeEscape | chatbot_backend/app/api/model_provider.py:104 | for every text and either quote, the escapes `repr` writes (`\\`, the quote, `\t`, `\n`, `\r`, `\xhh`) read back as the text |
| JsonValue.PlainRepr | chatbot_backend/app/api/model_provider.py:187 | text with no quote, backslash or escaped character is shown between single quotes, as it is |
| JsonValue.ApostropheRepr | chatbot_backend/app/api/model_provider.py:187 | text with an apostrophe and no double quote is shown between double quotes, with the apostrophe unescaped |
| ToolPlan.JsonFenceSegment | chatbot_backend/app/api/model_provider.py:35-37 | with a "```json" fence, exactly the stripped text between it and the next "```" is decoded |
| ToolPlan.BareFenceSegment | chatbot_backend/app/api/model_provider.py:38-40 | without "```json", the stripped text between the first two "```" fences is decoded |
| ToolPlan.UnfencedText | chatbot_backend/app/api/model_provider.py:33-42 | text with no fence is decoded as it is |
| ToolPlan.CollectSteps | chatbot_backend/app/api/model_provider.py:44-52 | the loop succeeds exactly when every element is an object; every kept step has a truthy tool name; no more steps than elements |
| ToolPlan.CollectStepsAppend | chatbot_backend/app/api/model_provider.py:46-51 | the plan of a concatenated array is the plan of the first part followed by that of the second: input order is kept |
| ToolPlan.CollectStepsSingle | chatbot_backend/app/api/model_provider.py:46-51 | an object with a truthy name gives one step from its fields, default `{}` arguments and `None` order; a falsy name gives none; a non-object aborts |
| ToolPlan.ParseCalls | chatbot_backend/app/api/model_provider.py:32-59 | every step has a truthy name; text that does not decode to a list, or a list with a non-object element, gives the empty plan |
| ToolPlan.ParseToolsToCall | chatbot_backend/app/api/model_provider.py:32-59 | every step has a truthy tool; a reply that is not a JSON list, or a list with an item that is not an object, gives `[]` |
| ToolPlan.ParseArrayOfObjects | chatbot_backend/app/api/model_provider.py:42-52 | once the text decodes to an array of objects, the plan is exactly the collected steps |
| ToolPlan.NoSortingByOrder | chatbot_backend/app/api/model_provider.py:46-52 | steps numbered 2 then 1 stay in that order |
| ToolPlan.ParseEngineTools | app/llm/chat_engine.py:11-37 | the desktop parser reads "tool_name"/"parameters"; it gives one call per kept element, with a truthy name; a non-list gives `[]` |
| Resolver.ResolveValue | chatbot_backend/app/api/model_provider.py:198-205 | a `result_` string becomes the stored text or `None`; a list literal becomes the parsed list, or stays when it parses to something else; it raises exactly when the literal does not parse; any other value stays |
| Resolver.ListLiteralIsNoPlaceholder | chatbot_backend/app/api/model_provider.py:199-203 | the two replacements never apply to the same value |
| Resolver.ResolveFields | chatbot_backend/app/api/model_provider.py:198-206 | the same keys in the same order, each value resolved; it fails exactly when some value raises |
| Resolver.GetToolParams | chatbot_backend/app/api/model_provider.py:194-206 | a dict keeps its keys and order; it raises when arguments are not a dict or some literal does not parse |
| Resolver.PlainParamsUnchanged | chatbot_backend/app/api/model_provider.py:198-206 | arguments without placeholders or list literals pass unchanged |
| Resolver.SaveResponse | chatbot_backend/app/api/model_provider.py:181-191 | empty or non-text content returns `None` and stores nothing; a first text item is stored under `result_<tool>` and streamed; no other key changes |
| Resolver.StoreThenResolve | chatbot_backend/app/api/model_provider.py:187-205 | a stored result is what a later `result_<tool>` argument resolves to |
| Resolver.MissingPlaceholderIsNone | chatbot_backend/app/api/model_provider.py:203-205 | a placeholder for a tool that has not run becomes `None` |
| Stream.Yield | chatbot_backend/app/api/model_provider.py:29-30 | the frame content is the text followed by exactly three newlines |
| Stream.Wire | chatbot_backend/app/api/model_provider.py:30 | a frame on the wire starts with `data: ` and ends with a blank line |
| Stream.Tokens | chatbot_backend/app/api/model_provider.py:222 | every match of `\s*\S+` is whitespace then non-whitespace; every match after the first starts with whitespace; the first starts at the text's start |
| Stream.TokensConcat | chatbot_backend/app/api/model_provider.py:222-225 | the streamed words put back together are the text without its trailing whitespace |
| Stream.FakeTextStream | chatbot_backend/app/api/model_provider.py:208-228 | one frame per match, then the closing `"\n\n"` frame; the word frames concatenate to the right-stripped text |
| Stream.PlanFrames | chatbot_backend/app/api/model_provider.py:231-244 | one announcement per step, then the launch frame; a step whose arguments are not a dict stops the stream after the frames of the steps before it |
| ChatEngine.ChatLlm | app/llm/chat_engine.py:83-121 | an immediate failure sends one error chunk and returns `None`; a stream forwards every piece and returns their concatenation, plus one error chunk when the stream breaks |
| ChatEngine.RunCalls | app/llm/chat_engine.py:69-81 | the calls made are a prefix of the plan; all are made exactly when none raises; otherwise the last one made is the one that raised |
| ChatEngine.ProcessRequestMessage | app/llm/chat_engine.py:39-81 | the preamble chunks always come first; an empty plan stops there; the success chunk is sent exactly when the plan is non-empty and every call returned |
| ChatEngine.RaisedModelCallsNothing | app/llm/chat_engine.py:61-67 | a model that fails at once leads to no tool call, and the chunk list is fixed |
| ChatEngine.SecondCallFails | app/llm/chat_engine.py:72-81 | when the second of three calls raises, the third is never made |
| Executor.ExecuteStep | chatbot_backend/app/api/model_provider.py:100-112 | a step makes one call with its resolved arguments, announced first; resolution failing makes no call; the loop goes on exactly when the result's first item is text, which is stored and replayed |
| Executor.ExecuteSteps | chatbot_backend/app/api/model_provider.py:99-112 | at most one call per step; a finished loop made one call per step |
| Executor.CallsFollowPlan | chatbot_backend/app/api/model_provider.py:100-108 | the k-th call is to the k-th step's tool |
| Executor.ExecuteStepsAppend | chatbot_backend/app/api/model_provider.py:100-112 | the loop over `a + b` is the loop over `a` and then, if it finished, the loop over `b` from the storage `a` left |
| Executor.ResultFeedsNextStep | chatbot_backend/app/api/model_provider.py:105-109 | a `result_<tool>` argument of the second step receives the first step's text |
| Executor.ResolvesStored | chatbot_backend/app/api/model_provider.py:198-205 | a placeholder whose result is stored resolves to that text |
| Executor.RunLoop | chatbot_backend/app/api/model_provider.py:99-112 | the iterative loop computes the loop's meaning |
| Executor.WireAll | chatbot_backend/app/api/model_provider.py:30 | each frame is written in wire form, in order |
| Executor.Generate | chatbot_backend/app/api/model_provider.py:94-123 | the plan frames come first; calls are made only when the plan frames finished; the assistant message is persisted exactly when plan and loop both finished, ends with the empty frame and holds the announcements and replayed frames |
| Executor.EmptyPlanTurn | chatbot_backend/app/api/model_provider.py:96-123 | an empty plan yields the launch frame and the empty frame, and persists the launch announcement |
| Executor.UnparsableReplyTurn | chatbot_backend/app/api/model_provider.py:94-123 | a reply that is not a JSON list gives the empty plan's turn |
| Executor.FirstCallSeesFreshStorage | chatbot_backend/app/api/model_provider.py:99-105 | storage is fresh for every request, so the first call's placeholders become `None` |
| Executor.GetModelEventGenerator | chatbot_backend/app/api/model_provider.py:172-178 | "ollama" and "gemini" select their generators; any other name raises `Model <name> not supported` |
| Chunking.Window | app/files/file_pre_processing.py:25-27 | a window is non-empty and has `min(size, remaining)` characters |
| Chunking.ChunkText | app/files/file_pre_processing.py:19-32 | chunk k is the window at `k * (size - overlap)`; every chunk but the last stops short of the end |
| Chunking.WindowsFromAt | app/files/file_pre_processing.py:24-31 | window k of the loop is the one at `start + k * step`, inside the text |
| Chunking.WindowsFromLast | app/files/file_pre_processing.py:24-31 | no windows exactly when the start is past the end; the last window reaches the end or the next start is past it |
| Chunking.ChunkTextLoop | app/files/file_pre_processing.py:19-32 | the `while` loop with its `break` computes `chunk_text` |
| Chunking.ChunkChars | app/files/file_parser.py:9-22 | chunks are slices, so they keep any character class of the text |
| Chunking.SingleChunk | app/files/file_pre_processing.py:24-30 | text no longer than a window is one chunk, the text itself |
| Chunking.LastChunkReachesEnd | app/files/file_pre_processing.py:28-30 | with a non-negative overlap the last chunk ends at the end of the text |
| Chunking.Coverage | app/files/file_pre_processing.py:24-31 | every character lies in some chunk |
| Chunking.AdjacentOverlap | app/files/file_pre_processing.py:24-31 | adjacent chunks share `overlap` characters |
| Chunking.ThousandCharacters | chatbot_backend/tests/test_file_loader.py:33-41 | 1000 characters with size 200 and overlap 50 give several non-empty chunks, and the first chunk's last 50 characters are the second's first 50 |
| Normalize.BlankOthers | app/files/file_pre_processing.py:49 | every character other than `[a-z0-9]` and whitespace becomes a space, the rest stay |
| Text.SqueezeIsJoin | app/files/file_pre_processing.py:52 | `re.sub(r"\s+", " ", s).strip()` is `" ".join(s.split())`: the same words, single spaces |
| Text.SplitJoinParts | chatbot_backend/app/file/file_pre_processing.py:11-14 | joining whitespace-free parts with single spaces and splitting again gives the parts that are not empty |
| Normalize.NonSpaceOfBlankOthers | app/files/file_pre_processing.py:49 | apart from whitespace, exactly the letters and digits survive |
| Normalize.NormalizeText | app/files/file_pre_processing.py:35-54 | empty text gives ""; otherwise the result is the words of the lower-cased, blanked transliteration joined by single spaces, so punctuation separates words; it holds only `[a-z0-9 ]` and its non-space characters are exactly the letters and digits |
| Normalize.PunctuationSeparatesWords | app/files/file_pre_processing.py:49-52 | for alphanumeric words `a` and `b`, `a.b` normalises to `a b`, not `ab` |
| Normalize.Keep | app/files/file_pre_processing.py:57-60 | the kept words are exactly the non-stop words, in order |
| Normalize.KeepAppend | app/files/file_pre_processing.py:59 | the filter distributes over concatenation, so the kept words keep their order |
| Normalize.KeepSingle | app/files/file_pre_processing.py:59 | one word is kept exactly when it is not a stop word |
| Normalize.KeepIdempotent | app/files/file_pre_processing.py:57-60 | filtering twice is filtering once |
| Normalize.CleanText | app/files/file_pre_processing.py:57-60 | the words of the result are the input's words minus stop words, single-spaced |
| Normalize.CleanTextIdempotent | app/files/file_pre_processing.py:57-60 | cleaning cleaned text changes nothing |
| Normalize.CleanTextChars | app/files/file_pre_processing.py:57-60 | cleaning keeps a character class that contains the space |
| Normalize.Preprocess | app/files/file_pre_processing.py:65-69 | the chunks are the overlapping windows of the normalised, cleaned text, each non-empty, at most `size` long and in `[a-z0-9 ]` |
| WordChunking.DropNoise | chatbot_backend/app/file/file_pre_processing.py:14 | only word characters, whitespace and `.,!?;:-()` remain |
| WordChunking.NonSpaceDropNoise | chatbot_backend/app/file/file_pre_processing.py:11-14 | dropping noise and dropping whitespace commute |
| WordChunking.CleanNoise | chatbot_backend/app/file/file_pre_processing.py:5-16 | the result is each word of the input with its noise deleted, joined by single spaces (a word of noise only leaves a double space); its words are those of these that are not empty; only kept characters and plain spaces remain |
| WordChunking.DropNoiseAppend | chatbot_backend/app/file/file_pre_processing.py:14 | deletion distributes over concatenation |
| WordChunking.DropNoiseJoin | chatbot_backend/app/file/file_pre_processing.py:11-14 | deleting noise from words joined by single spaces deletes it word by word and keeps the spaces |
| WordChunking.DeletionLeavesDoubleSpace | chatbot_backend/app/file/file_pre_processing.py:11-14 | squeezing before deleting leaves `"a  b"` from `"a @ b"` |
| WordChunking.WordWindowsCount | chatbot_backend/app/file/file_pre_processing.py:26-32 | the loop makes `ceil((n - start) / step)` windows |
| WordChunking.WordWindowsAt | chatbot_backend/app/file/file_pre_processing.py:26-32 | window k is the one at `start + k * step` |
| WordChunking.ChunkByWords | chatbot_backend/app/file/file_pre_processing.py:19-33 | `ceil(n / (size - overlap))` windows; window k is the `size` words from `k * step` joined by single spaces, and splits back into them |
| WordChunking.ChunkByWordsLoop | chatbot_backend/app/file/file_pre_processing.py:19-33 | the `while` loop computes the windows |
| WordChunking.BlankTextHasNoChunks | chatbot_backend/app/file/file_pre_processing.py:20-21 | whitespace-only text gives no chunk |
| WordChunking.TrailingWindowInsidePrevious | chatbot_backend/app/file/file_pre_processing.py:26-32 | five words with size 4 and step 2 give three windows, and the last repeats the end of the second |
| WordChunking.Preprocess | chatbot_backend/app/file/file_pre_processing.py:36-39 | `ceil(n / 120)` windows of the cleaned words; window `k` is the cleaned words from `120 * k` on, at most 150 of them, joined by single spaces; empty text gives none |
| MetadataStore.Get | chatbot_backend/app/file/file_metadata_manager.py:31-37 | found exactly when the name is a key, with its entry; otherwise the `KeyError` message |
| MetadataStore.Put | chatbot_backend/app/file/file_metadata_manager.py:39-53 | the name maps to the new entry and no other changes; a new key goes last in the order |
| MetadataStore.Remove | chatbot_backend/app/file/file_metadata_manager.py:55-65 | the order without that name, the others kept |
| MetadataStore.RemoveAt | chatbot_backend/app/file/file_metadata_manager.py:63 | removing a name that occurs once, at index `i`, gives the order before `i` followed by the order after it |
| MetadataStore.Add | chatbot_backend/app/file/file_metadata_manager.py:39-53 | inserts or overwrites one entry with no categories; no other entry changes |
| MetadataStore.Delete | chatbot_backend/app/file/file_metadata_manager.py:55-65 | `KeyError` exactly for an unknown name; otherwise that key alone goes, and the key order closes the gap where it stood |
| MetadataStore.DeleteUndoesAdd | chatbot_backend/app/file/file_metadata_manager.py:39-65 | deleting a newly added name gives the store back |
| MetadataStore.UpdateMetadata | chatbot_backend/app/file/file_metadata_manager.py:67-81 | only the original name of that entry changes; unknown names raise |
| MetadataStore.GetCategory | chatbot_backend/app/file/file_metadata_manager.py:83-93 | the user's category or `None`; unknown names raise |
| MetadataStore.UpdateCategory | chatbot_backend/app/file/file_metadata_manager.py:95-105 | unknown names raise; no other entry changes |
| MetadataStore.CategoryRoundTrip | chatbot_backend/app/file/file_metadata_manager.py:83-105 | a category set for a user is read back for that user; other users' categories and the other fields stay |
| MetadataStore.NamesWhere | chatbot_backend/app/file/file_metadata_manager.py:113-115 | exactly the names whose entry passes the test, in order, without repetition |
| MetadataStore.NamesWhereInOrder | chatbot_backend/app/file/file_metadata_manager.py:113-115 | the listed names keep the order of the store |
| MetadataStore.FileNamesByUserAndRole | chatbot_backend/app/file/file_metadata_manager.py:107-117 | a name is listed exactly when the user is its author, the role is admin, or the role is among its roles; in store order, without repetition |
| MetadataStore.AdminSeesAll | chatbot_backend/app/file/file_metadata_manager.py:114 | an admin sees every file, in order |
| MetadataStore.AddedFileVisibility | chatbot_backend/app/file/file_metadata_manager.py:39-53 | `add_metadata` writes no author, so for a non-empty user only the role decides visibility |
| MetadataStore.Infos | chatbot_backend/app/file/file_metadata_manager.py:128-136 | one listing record per name, built from its entry |
| MetadataStore.SystemFiles | chatbot_backend/app/file/file_metadata_manager.py:120-138 | exactly the admin's uploads visible to the role, one record each, in store order |
| MetadataStore.PersonalFiles | chatbot_backend/app/file/file_metadata_manager.py:141-163 | nothing for "admin"; otherwise exactly the user's uploads, one record each, in store order |
| MetadataStore.SystemAndPersonalDisjoint | chatbot_backend/app/file/file_metadata_manager.py:119-163 | no file is both a system file and a personal file |
| CommonMetadataStore.UpdateMetadata | chatbot_backend/common/file/file_metadata_manager.py:64-79 | the original name and the roles of that entry change, nothing else; unknown names raise |
| CommonMetadataStore.UpdatedRolesDecideVisibility | chatbot_backend/common/file/file_metadata_manager.py:64-115 | after an update, the role listing follows the new roles |
| CommonMetadataStore.SystemFileNamesAsWritten | chatbot_backend/common/file/file_metadata_manager.py:118-128 | the function returns every key of the store |
| CommonMetadataStore.SystemFileNames | chatbot_backend/common/file/file_metadata_manager.py:118-126 | exactly the names uploaded by "admin", in store order, without repetition |
| CommonMetadataStore.SystemFilesIncludeUserUploads | chatbot_backend/common/file/file_metadata_manager.py:118-128 | as written, a user's upload is listed as a system file; the intended list leaves it out |
| CommonMetadataStore.PersonalFileNames | chatbot_backend/common/file/file_metadata_manager.py:131-142 | nothing for "admin"; otherwise exactly the user's uploads, in store order, without repetition |
| CommonMetadataStore.SystemOrPersonal | chatbot_backend/common/file/file_metadata_manager.py:118-142 | with the intended list, each file is a system file or its uploader's personal file, never both |
| SearchClassifier.GetFileClassification | app/files/search_classifier.py:158-166 | a confirmed label that is one of the labels wins; otherwise the classifier decides |
| SearchClassifier.Preview | app/files/search_classifier.py:263 | content up to 3000 characters is kept; longer content is cut to 3000 characters followed by "..." |
| SearchClassifier.PreviewIdempotent | app/files/search_classifier.py:263 | a preview is its own preview |
| SearchClassifier.WithLabel | app/files/search_classifier.py:187-189 | exactly the results whose label passes, in order |
| SearchClassifier.WithLabelAppend | app/files/search_classifier.py:187-189 | the filter distributes over concatenation, so each group keeps the order of the results |
| SearchClassifier.WithLabelSingle | app/files/search_classifier.py:187-189 | one result is kept exactly when its label passes |
| SearchClassifier.GroupsPartition | app/files/search_classifier.py:187-189 | groups A, B and others together hold each result exactly as often as the results do |
| SearchClassifier.Layout | app/files/search_classifier.py:186-218 | the listed files are group A, then B, then the others, a permutation of the results; a header appears exactly for a non-empty group; the analysis and the feedback help come last |
| SearchClassifier.FormatSearchResults | app/files/search_classifier.py:179-220 | no results give the fixed not-found text; otherwise the title and the layout |
| SearchClassifier.ParseFeedbackAsWritten | app/files/search_classifier.py:304-309 | fewer than three tokens is a syntax error; otherwise the second token is the file and the third, passed through `str.upper`, the label |
| SearchClassifier.CommandMisread | app/files/search_classifier.py:298-309 | as written, the documented command reads the verb's second word as the file name |
| SearchClassifier.ExampleCommandMisread | app/files/search_classifier.py:218 | the printed example looks up the file "chỉnh", with the upper-cased file name as the label |
| SearchClassifier.ParseFeedback | app/files/search_classifier.py:298-309 | the intended parse: fewer than four tokens is a syntax error; the third token is the file, the fourth, passed through `str.upper`, the label |
| SearchClassifier.ParseFeedbackRoundTrip | app/files/search_classifier.py:298-309 | the command built from a file name and a label parses back to them, with the label upper-cased |
| SearchClassifier.FirstMatch | app/files/search_classifier.py:315-318 | the first file of a directory whose name equals the requested one after `str.lower` of both; none exactly when no file matches |
| SearchClassifier.FindFile | app/files/search_classifier.py:313-318 | a file is found exactly when some directory has a match; the `break` leaves only the inner loop, so the result is the match of the last directory that has one |
| SearchClassifier.Walk | app/files/search_classifier.py:313-318 | the nested loops with the inner `break` compute the search |
| SearchClassifier.Recorded | app/files/search_classifier.py:324-329 | the path's record holds the file name and the new label; other records are kept |
| SearchClassifier.ProcessFeedback | app/files/search_classifier.py:293-342 | a malformed command or a missing file gives its message and writes nothing; a found file gets exactly its record written |
| SearchClassifier.FeedbackOverridesClassifier | app/files/search_classifier.py:158-166 | after feedback on a found file, that file gets the new label whenever it is a label; other files are classified as before |
| SearchClassifier.RecordedClassification | app/files/search_classifier.py:159-166 | a recorded label decides its own path's classification and no other path's |
| Message.NewMessage | chatbot_backend/app/schema/message.py:7-14 | both flags default to false; each id, the content and the timestamp go to their own field |
| Message.Flag | chatbot_backend/app/schema/message.py:23-24 | true is stored as 1 and false as 0 |
| Message.ToSqlite | chatbot_backend/app/schema/message.py:16-26 | exactly the seven columns, no `summary`; flags 1 exactly when true; each id, the content and the timestamp go to their own column |
| Message.FromSqlite | chatbot_backend/app/schema/message.py:29-39 | succeeds exactly when all columns are present and the text columns hold text; flags are `bool(...)` of the stored values |
| Message.RoundTrip | chatbot_backend/app/schema/message.py:16-39 | storing a message and reading it back gives the same message |
| Message.NonZeroIsTrue | chatbot_backend/app/schema/message.py:36-37 | any non-zero flag value reads back as true |
| Message.ReadThenStore | chatbot_backend/app/schema/message.py:16-39 | reading a row and storing it again changes only the flags, which are normalised to 0 or 1 |
| ChatApi.LastIndexOf | chatbot_backend/app/api/chat_api.py:152 | the index of the last occurrence, or -1 when there is none |
| ChatApi.SplitExt | chatbot_backend/app/api/chat_api.py:152-153 | base and extension concatenate to the name; the extension is empty or one dot followed by no dot and no `/` |
| ChatApi.SplitExtAtLastDot | chatbot_backend/app/api/chat_api.py:152 | "report.pdf" splits into "report" and ".pdf" |
| ChatApi.SplitExtLeadingDot | chatbot_backend/app/api/chat_api.py:152 | ".bashrc" has no extension |
| ChatApi.AfterLastDot | chatbot_backend/app/api/chat_api.py:149 | the text after the last dot, which holds no dot, or the whole name when there is no dot |
| ChatApi.Extension | chatbot_backend/app/api/chat_api.py:149 | the last piece of `split(".")` is the text after the last dot |
| ChatApi.SplitOnLast | chatbot_backend/app/api/chat_api.py:149 | the last piece of a split is what follows the last separator |
| ChatApi.Candidate | chatbot_backend/app/api/chat_api.py:158 | a candidate's length is the base, the counter's digits, the two parentheses and the extension |
| ChatApi.CandidatesDiffer | chatbot_backend/app/api/chat_api.py:155-160 | different counters give different candidate names |
| ChatApi.CandidatesBelowCount | chatbot_backend/app/api/chat_api.py:155-160 | the candidates before counter n are n - 1 distinct names, which bounds the loop |
| ChatApi.StoredName | chatbot_backend/app/api/chat_api.py:150-160 | the stored name is free; it is the name itself exactly when that is free, otherwise the first free `base(k)ext`, all earlier candidates being taken |
| ChatApi.StoredNameUnique | chatbot_backend/app/api/chat_api.py:155-160 | the first free counter is unique |
| ChatApi.StoreNames | chatbot_backend/app/api/chat_api.py:145-160 | the loop over the files: each name is the free name the rename rule picks given the names in use before it, which it then takes |
| ChatApi.GrantedRoles | chatbot_backend/app/api/chat_api.py:167-168 | the admin's uploads keep the allowed roles; anyone else's get none |
| ChatApi.Documents | chatbot_backend/app/api/chat_api.py:172-181 | one document per chunk, each tagged with the stored name |
| ChatApi.DocumentsKeepChunks | chatbot_backend/app/api/chat_api.py:172-181 | the documents carry exactly the chunks, in order |
| ChatApi.UploadOne | chatbot_backend/app/api/chat_api.py:149-186 | the record carries the stored name as both names, the extension, the user, the granted roles and the chunk documents |
| ChatApi.UploadFiles | chatbot_backend/app/api/chat_api.py:145-187 | one record per file; each stored name is the rename rule applied to the names in use before that file; stored names are pairwise distinct and not previously taken; afterwards exactly the old and new names are taken |
| ChatApi.FileGroups | chatbot_backend/app/api/chat_api.py:116-129 | two groups, "System" first with the system files, then "Personal" with the user's |
| ChatApi.NewConversation | chatbot_backend/app/api/chat_api.py:82-100 | the conversation has the given ids and the title "New conservation"; its one message has the given message id and timestamp, holds the greeting text and is neither from the user nor an error |
| ChatApi.GreetingStoredAsAssistant | chatbot_backend/app/api/chat_api.py:90-99 | the greeting is stored with both flags 0 and reads back unchanged |
| History.RecordTurn | app/llm/langraph_agent.py:163-171 | the history ends with the new turn, is a suffix of the old history plus the turn, and holds at most ten turns; growing past ten keeps the last eight |
| History.RunConversation | app/llm/langraph_agent.py:152-179 | a failure returns the error text and leaves the history; a success returns the answer and records the turn |
| History.RecordAll | app/llm/langraph_agent.py:163-171 | after at least one turn the history holds between one and ten turns |
| History.HistoryIsRecentSuffix | app/llm/langraph_agent.py:163-171 | after any run of turns the history is the most recent turns in order, at most ten, ending with the last turn |
| History.RecordAllSuffix | app/llm/langraph_agent.py:163-171 | the recorded history is a suffix of all turns, at most ten long |
| History.WindowStaysFull | app/llm/langraph_agent.py:170-171 | once full, the window stays between eight and ten turns |
| History.HistoryMessages | app/llm/langraph_agent.py:76-83 | for each of the last six turns, oldest first, its question as a human message followed by its answer as an AI message |
| History.PairsAlternate | app/llm/langraph_agent.py:78-83 | message 2k is turn k's question and message 2k+1 its answer |
| History.ModifyState | app/llm/langraph_agent.py:71-89 | the last message becomes the input and the others, history first, the chat history |
| History.InputIsNewestMessage | app/llm/langraph_agent.py:71-89 | the input is the state's newest message, and the prompt starts with the oldest kept turn's question |
| EventBus.SetAdd | chatbot_ui/src/hooks/event-bus.ts:16-22 | adding keeps the set duplicate-free and adds exactly the callback; an existing one keeps its place and a new one goes last |
| EventBus.SetDelete | chatbot_ui/src/hooks/event-bus.ts:23-28 | deleting removes exactly the callback and keeps the rest |
| EventBus.SetDeleteAt | chatbot_ui/src/hooks/event-bus.ts:24 | deleting the callback at index `i` gives the callbacks before `i` followed by those after it |
| EventBus.On | chatbot_ui/src/hooks/event-bus.ts:16-22 | the callback is subscribed to the event; other events are unchanged |
| EventBus.OnIdempotent | chatbot_ui/src/hooks/event-bus.ts:16-22 | subscribing twice is subscribing once |
| EventBus.Unsubscribe | chatbot_ui/src/hooks/event-bus.ts:23-28 | the callback is gone; the event's key goes when its set becomes empty; other events are unchanged |
| EventBus.UnsubscribeIdempotent | chatbot_ui/src/hooks/event-bus.ts:23-28 | unsubscribing twice is unsubscribing once |
| EventBus.UnsubscribeUndoesOn | chatbot_ui/src/hooks/event-bus.ts:16-28 | unsubscribing undoes subscribing a new callback |
| EventBus.ErrorsOf | chatbot_ui/src/hooks/event-bus.ts:32-40 | at most one logged error per callback |
| EventBus.Emit | chatbot_ui/src/hooks/event-bus.ts:32-40 | each subscriber is called with the payload, in order; one error is logged per throwing callback and the rest still run |
| EventBus.EmitCallsEachOnce | chatbot_ui/src/hooks/event-bus.ts:32-40 | every subscriber is called exactly once |
| EventBus.NoThrowNoLog | chatbot_ui/src/hooks/event-bus.ts:35-38 | with no throwing callback nothing is logged |
| Timer.SetRunning | chatbot_ui/src/components/ui/timer.tsx:11-32 | a change of `isRunning` starts or stops ticking and never resets the count |
| Timer.Tick | chatbot_ui/src/components/ui/timer.tsx:14-16 | a running timer adds one second; a stopped one stays |
| Timer.RunningCounts | chatbot_ui/src/components/ui/timer.tsx:14-16 | n seconds of running add exactly n |
| Timer.StoppedKeepsCount | chatbot_ui/src/components/ui/timer.tsx:17-22 | a stopped timer keeps its count |
| Timer.StopDoesNotReset | chatbot_ui/src/components/ui/timer.tsx:11-32 | run a, stop, wait, run c: the count is a + c |
| Timer.Split | chatbot_ui/src/components/ui/timer.tsx:35-36 | minutes times sixty plus seconds is the count, and seconds are below sixty |
| Timer.TwoDigits | chatbot_ui/src/components/ui/timer.tsx:40 | at least two digits, exactly two below 100 |
| Timer.Display | chatbot_ui/src/components/ui/timer.tsx:40 | `mm:ss` with a colon before the last two digits; five characters below 6000 seconds |
| Timer.TwoDigitsValue | chatbot_ui/src/components/ui/timer.tsx:40 | zero padding keeps the number |
| Timer.DisplayRoundTrip | chatbot_ui/src/components/ui/timer.tsx:35-40 | the display splits at the colon into two digit strings whose minutes times sixty plus seconds is the count |

## Left out

- I/O: SQLite, `metadata.json` and the feedback file are not loaded or saved, and nothing is read from or written to disk. A store is the dict these operations carry; `os.walk` is a list of directories; `os.path.exists` is a set of taken names.
- Identifiers and clocks: `uuid.uuid4()`, `datetime.now()` and file modification times are parameters, kept as text. `str(UUID)` and `isoformat()` are taken to be undone by the record's parsing.
- The LLM, the MCP client and the vector database are parameters (the reply, the tool host) or left out: prompt text, `list_available_tools` and `chroma_db.add_documents`.
- `gemini_event_generator` is left out; only the generator's selection by name is modelled.
- The prompt's history messages in `ollama_event_generator` are left out; they only feed the model, which is a parameter.
- Chunking.ChunkText: requires `chunk_size > overlap`. Otherwise the source loop never ends, and a total function cannot model that. It also requires `chunk_size > 0`. With a size of zero or less, each slice ends at or before its start, and a negative end even counts back from the end of the text. No caller passes such a size.
- Normalize.NormalizeText: `unidecode` is a parameter whose output is taken as it is. `lower()` runs on that output, which is ASCII, so it is modelled on ASCII letters only.
- Normalize.CleanText: the `language` argument is never read, so it is not a parameter. The stop words are a parameter.
- WordChunking.DropNoise: Unicode `\w` is a parameter.
- `handle_search_and_classify` is left out, apart from its preview; it only orchestrates LLM calls, the classifier and a metadata send. The send's outcome only chooses the reply text after the feedback is stored, so the model does not state it.
- SearchClassifier.FindFile: `os.path.join(root, f)` is modelled as the found file's path string given with each directory's files.
- ChatApi.UploadFiles: file contents and `load_file` are replaced by each file's text. The Document ids and the database writes (`FileService.create`, `chroma_db`) are left out; the record the loop builds is modelled instead.
- ChatApi.FileGroups: the system and personal lists come from the database services, so they are parameters.
- ChatApi.NewConversation: the conversation and message writes are left out. The extra `summary` field is dropped by the record, as pydantic ignores it.
- EventBus.Emit: callbacks that subscribe or unsubscribe during an emit are not modelled. Callbacks are identified by number.
- Timer: the interval, React strict mode and the cleanup on unmount are left out; each tick is an explicit step.
- Floating point: the calculator tool of the tool server and JSON numbers with a fraction or an exponent are outside the core. `Json` has integers only.
- JsonValue.ReprStr: characters above U+00FF are shown as they are. Python's `repr` writes those that `str.isprintable()` rejects (U+2028, say) as `\uXXXX` or `\UXXXXXXXX`, and the Unicode printability table is not modelled. Up to U+00FF the escapes are exact.
- Message.FromSqlite: the ids and the timestamp stay text. Pydantic's UUID and datetime validation, which rejects a malformed value, is not modelled, so any text is accepted there.
- History.RunConversation: `outcome` stands for the `try` block of lines 152-174. `create_agent` runs before it (line 143), so a failure there raises instead of being reported; that path is not modelled.

## Findings

| source | as written | input that shows it | evidently intended | confidence | as-written member | corrected member |
|---|---|---|---|---|---|---|
| chatbot_backend/common/file/file_metadata_manager.py:118-128 | the loop collects the admin's uploads, but the function returns `list(metadatas.keys())`, so every file is listed | a store with only "report.pdf", uploaded by "alice": it is listed as a system file | return the collected admin uploads, as the comment and the other copy of the manager do | high (not executed) | CommonMetadataStore.SystemFileNamesAsWritten | CommonMetadataStore.SystemFileNames |
| app/files/search_classifier.py:304-309 | the file name is `parts[1]` and the label `parts[2]`, but the documented command `điều chỉnh [tên file] [nhãn mới]` has a two-word verb | "điều chỉnh git-cheat-sheet.pdf B", the example printed with the results: it looks up the file "chỉnh" with label "GIT-CHEAT-SHEET.PDF" | file name `parts[2]`, label `parts[3]`, at least four tokens | high (not executed) | SearchClassifier.ParseFeedbackAsWritten | SearchClassifier.ParseFeedback |
