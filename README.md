# flashcard-inator core, modelled in Dafny

flashcard-inator turns Obsidian notes into Anki flashcards. It cleans a note's
markdown, decides whether the note is worth processing, and sends the text to a
local LLM (Ollama or LM Studio). It then parses the model's reply into
question/answer cards and writes them as rows of a semicolon-separated CSV file.

This project models the core of that pipeline and proves properties of the model.

- **`Chunker`** (`chunker.dfy`) models `_chunk_content`.
  - The paragraph split `re.split(r'\n\s*\n', …)` is written out as a scanner. It is proved to lose nothing and to split as finely as the pattern allows.
  - The packing loop is a method proved equal to a fold, `PackAll`. What the fold keeps true is proved as an invariant: groups of paragraphs, their joins, and the size bound.
- **`LlmClient`** (`llm_client.dfy`) models `_generate_flashcards_from_chunk` and `generate_flashcards`.
  - The provider is a stub: a sequence of outcomes, each `Raised` or `Reply(text)`, consumed one per request.
  - The retry loop is a method proved equal to a closed form, `RetrySpec`. From it we prove the request bound, the backoff delays and the one-time reinforcement of the prompt.
  - The chunk loop is a method proved equal to `RunChunks`. It concatenates the cards and threads the outcome stream from chunk to chunk.
- **`ResponseParser`** (`response_parser.dfy`) models `_extract_flashcards_from_response` and `_parse_qa_format`.
  - The structured path covers the brace span, the JSON entry filter and the three ways into the fallback.
  - The heuristic path is a line loop, proved equal to a fold `QAFold`. From the fold we prove validity, ordering and a render/parse round trip.
- **`AnkiExport`** (`anki_exporter.dfy`) models `_clean_text_for_anki` and the row selection of `export_to_csv`. The CSV file is a returned sequence of rows.
- **`AppConfig`** (`config.dfy`) models the `Config` dataclass.
  - `__post_init__` is a class constructor plus a `Create` method that returns the `ValueError` as a `Failure`.
  - The `endpoint` property is a function.
- **`NoteFilter`** (`obsidian_processor.dfy`) models two things:
  - the `re.sub` chain of `read_file_content`, as a function of text that has already been read;
  - `should_process_file`.
  
  Each regular expression is a hand-written matcher. `SubAll` is `re.sub`'s left-to-right scan.
- **`Text`** and **`Json`** model the Python builtins the core uses, on ASCII:
  - `strip`, `split`, `' '.join`, `replace`, `lower`, `startswith` and `in`;
  - the values `json.loads` returns.

Each source loop is a Dafny `while` loop, with two exceptions. The `for card in flashcards` filter at src/llm_client.py:244-247 is the recursive function `FilterEntries` and its result `ValidEntries`, because the loop only selects entries from a list. The list comprehension at src/llm_client.py:344 is the recursive function `Slices`. Where the source's loop body has several branches, that body is a small method of its own, specified by the step function of the fold: `ParseLine`, `SealPending`, `PackParagraph`, `FinishChunks`, `WriteCard`, `CollectChunk`, and the two retry branches `RetryAfterReply` and `RetryAfterError`. The paragraph loop of `_chunk_content` is the method `PackParagraphs`, called by `ChunkContent`.

## Model

| member | source | states |
|---|---|---|
| Chunker.BreakEnd | src/llm_client.py:322 | a match of `\n\s*\n` starting at `i` ends where a blank line ends; none exists exactly when no break starts at `i` |
| Chunker.Slices | src/llm_client.py:344 | the fixed-width slices are non-empty, at most `max_chars` long, and concatenate to the text |
| Chunker.ParagraphsRoundTrip | src/llm_client.py:322 | there is one more paragraph than separator, every separator is a blank line, and putting the separators back gives the text |
| Chunker.ParagraphsHaveNoBreak | src/llm_client.py:322 | no paragraph contains a blank line, so the split is as fine as the pattern allows |
| Chunker.PackParagraphs | src/llm_client.py:326-336 | the paragraph loop ends with `chunks` and `current_chunk` as the fold `PackAll` leaves them after every paragraph |
| Chunker.PackParagraph | src/llm_client.py:329-336 | one loop iteration: close the chunk and restart with the paragraph, or append after `"\n\n"`, or start the chunk |
| Chunker.FinishChunks | src/llm_client.py:339-340 | the chunk being built is saved, stripped, only when it is not empty |
| Chunker.ChunkContent | src/llm_client.py:303-346 | the loop returns exactly `Chunks(content, maxChars)` |
| Chunker.PackAllInvariant | src/llm_client.py:326-336 | after any prefix of paragraphs: each chunk is its group joined and stripped, groups of two or more are at most `max+2` long, and groups plus the open chunk hold the non-empty paragraphs in order |
| Chunker.ShortContentOneChunk | src/llm_client.py:318-319 | content of at most `max_chars` characters is returned as the single, unchanged chunk |
| Chunker.LongContentChunks | src/llm_client.py:322-340 | longer content: chunk `k` is group `k` joined by `"\n\n"` and stripped; every non-empty paragraph is in exactly one group, in order; a merged chunk is at most `max_chars + 2` long |
| Chunker.FallbackSlices | src/llm_client.py:342-344 | when every paragraph is empty, the chunks are the slices, which concatenate to the content |
| Chunker.EmptyChunkExample | src/llm_client.py:338-340 | `"ab\n\n "` with a limit of 1 yields the chunks `"ab"` and `""` |
| LlmClient.FirstSuccess | src/llm_client.py:99-112 | the index of the first request that yields cards, with every earlier request failing; none when none of the first `n` succeeds |
| LlmClient.SentPrompts | src/llm_client.py:125-127 | request `j` is sent with the base prompt plus the reinforcement exactly when `j >= 1` and request 1 returned a reply |
| LlmClient.Backoff | src/llm_client.py:121-123 | the `j`-th sleep lasts `retry_delay * 2^j` seconds |
| LlmClient.BackoffStep | src/llm_client.py:136-139 | a failed request adds one sleep unless it was the last allowed |
| LlmClient.PromptStep | src/llm_client.py:125-127 | the prompt changes once, after a first request that returned a reply, and never after an exception |
| LlmClient.GenerateFromChunk | src/llm_client.py:80-145 | the retry loop returns exactly `RetrySpec`: its cards, prompts and delays |
| LlmClient.RetryAfterReply | src/llm_client.py:114-127 | after a reply without cards: one more attempt is used, the sleeps so far are the doubling delays, and the reinforced prompt is the one the next attempt sends |
| LlmClient.RetryAfterError | src/llm_client.py:129-139 | after a raised call: one more attempt is used, the sleeps so far are the doubling delays, and the prompt is kept unchanged for the next attempt |
| LlmClient.RetryOutcome | src/llm_client.py:96-145 | 1 to `max_attempts` requests, one sleep fewer than requests; cards exactly when some request succeeds, and then they are the last reply's and all earlier requests failed; `[]` only after all attempts |
| LlmClient.RetryCardsValid | src/llm_client.py:108-112 | every card the loop returns passes the validity filter |
| LlmClient.DefaultRetryExhausted | src/llm_client.py:96-145 | with 3 attempts and a 2 s delay, total failure costs 3 requests and sleeps of 2 and 4 s; prompts 2 and 3 are reinforced exactly when request 1 returned a reply |
| LlmClient.CollectChunks | src/llm_client.py:56-75 | the chunk loop returns `RunChunks`: each chunk's result, concatenated in chunk order |
| LlmClient.CollectChunk | src/llm_client.py:60-70 | one chunk iteration: the cards gathered so far followed by what the remaining chunks give stay equal to the whole run |
| LlmClient.GenerateFlashcards | src/llm_client.py:35-78 | `generate_flashcards` returns exactly `GenerateSpec` |
| LlmClient.RunChunksBounds | src/llm_client.py:60-70 | every chunk costs between one and three requests, and every collected card is valid |
| LlmClient.GenerateShape | src/llm_client.py:47-78 | a note of up to 6000 characters is one call on the unchanged content under its own name; a longer one costs one to three requests per chunk, starting with chunk 1 labelled `(part 1/n)` |
| LlmClient.ChunksNonEmpty | src/llm_client.py:318-346 | the chunker always returns at least one chunk |
| LlmClient.PartLabelExample | src/llm_client.py:65 | the second of three parts of `notes.md` is labelled `notes.md (part 2/3)` |
| ResponseParser.QuestionText | src/llm_client.py:281 | the question text is stripped and does not start with a character of the class `[Q*:Domanda\s]` |
| ResponseParser.AnswerText | src/llm_client.py:287 | the answer text is stripped and does not start with a character of the class `[A*:Risposta\s]` |
| ResponseParser.ParseLine | src/llm_client.py:268-292 | one iteration takes the loop state after line `i` to the state after line `i + 1` |
| ResponseParser.SealPending | src/llm_client.py:295-299 | the last question becomes a card exactly when it has answer lines |
| ResponseParser.ParseQALines | src/llm_client.py:263-301 | the loop returns the sealed fold of the lines |
| ResponseParser.ParseQAFormat | src/llm_client.py:261-301 | `_parse_qa_format` returns `ParseQA(response)`, and every card is valid |
| ResponseParser.QAStepGood | src/llm_client.py:268-292 | a step keeps the sealed cards valid, the question stripped and the answer lines non-empty and stripped |
| ResponseParser.ParseQAValid | src/llm_client.py:274-299 | every heuristic card has a string question and answer, neither blank |
| ResponseParser.ParseQAOrdered | src/llm_client.py:272-282 | the cards' questions are a subsequence of the question-marker lines' texts: at most one card per marker line, in line order |
| ResponseParser.QAStepQuestion | src/llm_client.py:272-282 | a question-marker line seals the pending card and opens its question with an empty answer |
| ResponseParser.QAStepOther | src/llm_client.py:284-292 | any other line keeps the sealed cards and the pending question |
| ResponseParser.AnswerLineResets | src/llm_client.py:285-288 | an answer-marker line replaces the pending answer lines with its own text, or with none when that text is empty |
| ResponseParser.ContinuationLine | src/llm_client.py:291-292 | another line is appended exactly when a question is pending and the line is non-blank and not a bullet; otherwise it changes nothing |
| ResponseParser.BlankLineIgnored | src/llm_client.py:268-292 | a blank line leaves the state unchanged |
| ResponseParser.QuestionWordMarker | src/llm_client.py:281 | `"Question: Why?"` gives the question `"uestion: Why?"` |
| ResponseParser.QuestionLetterDropped | src/llm_client.py:281 | `"Q" + rest` gives `rest` when `rest` is stripped and starts outside the class: the letter is taken as the marker |
| ResponseParser.QuestionTextAfterMarker | src/llm_client.py:281 | `"Q: " + q` gives `q` when `q` is stripped and starts outside the class |
| ResponseParser.AnswerTextAfterMarker | src/llm_client.py:287 | `"A: " + a` gives `a` when `a` is stripped and starts outside the class |
| ResponseParser.QuestionStep | src/llm_client.py:272-282 | a `"Q: q"` line seals the pending card and opens question `q` |
| ResponseParser.AnswerStep | src/llm_client.py:285-288 | an `"A: a"` line sets the pending answer to `[a]` |
| ResponseParser.RenderedPairsParse | src/llm_client.py:261-301 | rendering pairs as alternating `Q: `/`A: ` lines and parsing them back gives one card per pair, in order, with the original texts |
| ResponseParser.ExampleTwoCards | src/llm_client.py:261-301 | four marker lines parse to the two expected cards |
| ResponseParser.ParseEmpty | src/llm_client.py:263-301 | an empty reply yields no cards |
| ResponseParser.JsonSpan | src/llm_client.py:236-238 | a span exists exactly when some `{` is followed by a `}` |
| ResponseParser.JsonSpanBounds | src/llm_client.py:236-238 | the span runs from the first `{` to the last `}` |
| ResponseParser.CheckEntryKeep | src/llm_client.py:245-246 | an entry is kept exactly when it is a dict with non-blank string `question` and `answer` |
| ResponseParser.BlankQuestionShortCircuits | src/llm_client.py:246 | a blank string question skips the entry without looking at the answer, so a non-string answer beside it does not raise |
| ResponseParser.ValidEntries | src/llm_client.py:243-247 | the kept entries are valid cards, and there are no more of them than entries |
| ResponseParser.FilterEntries | src/llm_client.py:243-249 | the filter fails exactly when some entry raises, and otherwise returns the valid entries unchanged and in order |
| ResponseParser.ExtractFlashcards | src/llm_client.py:231-259 | every extracted card is valid |
| ResponseParser.StructuredKeepsValidEntries | src/llm_client.py:236-249 | a decoded `flashcards` list with no raising entry yields exactly its valid entries, even when there are none (no fallback) |
| ResponseParser.StructuredPath | src/llm_client.py:237-249 | once the span decodes and the filter does not raise, the filtered cards are the result |
| ResponseParser.FallbackCases | src/llm_client.py:250-259 | no span, a decode error or a raising filter gives the heuristic parser's result |
| AnkiExport.EscapedNoBrackets | src/anki_exporter.py:79 | after escaping, no `<` and no `>` is left |
| AnkiExport.EscapedNormalized | src/anki_exporter.py:79 | escaping keeps a normalized string normalized |
| AnkiExport.EscapedIdentity | src/anki_exporter.py:79 | escaping changes nothing in a string without angle brackets |
| AnkiExport.EscapedEmpty | src/anki_exporter.py:79 | escaping empties exactly the empty string |
| AnkiExport.EscapedTag | src/anki_exporter.py:79 | `<w>` becomes `&lt;w&gt;` |
| AnkiExport.EscapedBreak | src/anki_exporter.py:79-80 | the `<br>` marker is escaped to `&lt;br&gt;`, because line 80 replaces it with itself |
| AnkiExport.SpacedNewline | src/anki_exporter.py:73-76 | a lone newline becomes `<br>` |
| AnkiExport.SpacedEmptyIff | src/anki_exporter.py:73-76 | the whitespace-normalized text is empty exactly when the input is all whitespace with no newline |
| AnkiExport.CleanUnfold | src/anki_exporter.py:69-82 | on non-empty input the cleaner is the escaped normalized text, and the final strip changes nothing |
| AnkiExport.CleanNoAngleBrackets | src/anki_exporter.py:73-80 | a cleaned cell contains no `<` and no `>` |
| AnkiExport.CleanNormalized | src/anki_exporter.py:76-82 | a cleaned cell is stripped, and its only whitespace is single spaces between non-space characters |
| AnkiExport.CleanEmptyIff | src/anki_exporter.py:69-82 | a cleaned cell is empty exactly when the text is whitespace without a newline |
| AnkiExport.CleanNewline | src/anki_exporter.py:69-80 | whitespace consisting of a newline becomes `&lt;br&gt;`, not empty |
| AnkiExport.CleanIdempotent | src/anki_exporter.py:69-82 | cleaning a cleaned cell changes nothing |
| AnkiExport.WriteCard | src/anki_exporter.py:49-54 | one iteration appends the card's cleaned row exactly when both cleaned texts are non-empty |
| AnkiExport.ExportToCsv | src/anki_exporter.py:28-54 | an empty list is the `ValueError`; otherwise the rows are exactly those selected, in input order |
| AnkiExport.SelectRowsAppend | src/anki_exporter.py:48-54 | the rows of two lists are those of the first, then those of the second |
| AnkiExport.SelectRowsMembers | src/anki_exporter.py:48-54 | a row is written exactly when some kept card cleans to it |
| AnkiExport.SelectRowsClean | src/anki_exporter.py:48-54 | every written question and answer is non-empty, normalized and free of angle brackets |
| AnkiExport.CardWithTextKept | src/anki_exporter.py:49-53 | a card whose question and answer are not blank after strip() is written |
| AnkiExport.AllCardsWritten | src/anki_exporter.py:48-54 | when every card is non-blank, one row is written per card |
| AppConfig.Config.constructor | src/config.py:21-42 | the provider is lower-cased and supported; a given URL and model are kept; missing ones get the provider's defaults |
| AppConfig.Config.Create | src/config.py:24-28 | construction fails with the provider error exactly when the lower-cased provider is unsupported; otherwise it yields a valid configuration |
| AppConfig.Config.Endpoint | src/config.py:44-51 | the endpoint is exactly the base URL followed by `/api/generate` for ollama and by `/v1/chat/completions` for lmstudio: it starts with the base URL, ends with the provider's path, and is exactly as long as the two together |
| AppConfig.EndpointDeterminesConfig | src/config.py:44-51 | two valid configurations with the same endpoint have the same provider and base URL |
| AppConfig.UpperCaseProviderAccepted | src/config.py:24 | `"OLLAMA"` lower-cases to `"ollama"` and `"LMStudio"` to `"lmstudio"` |
| AppConfig.ProviderCaseInsensitive | src/config.py:24-28 | two spellings that differ only in letter case are accepted or refused together |
| AppConfig.DefaultOllamaConfig | src/config.py:31-49 | with only the provider `"OLLAMA"` given, the endpoint is `http://localhost:11434/api/generate` and the model `gemma3` |
| AppConfig.DefaultLmStudioConfig | src/config.py:31-51 | with only the provider given, LM Studio's endpoint is `http://localhost:1234/v1/chat/completions` and the model `local-model` |
| NoteFilter.Find | src/obsidian_processor.py:71 | the lazy `.*?` settles on the first occurrence of the closing delimiter |
| NoteFilter.StripFrontMatter | src/obsidian_processor.py:62 | the text is unchanged, or it starts with `---\n` and what remains is a suffix of it |
| NoteFilter.FrontMatterRemoved | src/obsidian_processor.py:62 | the text is unchanged exactly when it does not start with `---\n` or has no `\n---\n` at index 4 or later; otherwise everything up to and including the first such `\n---\n` is removed and the rest is kept |
| NoteFilter.FrontMatterExample | src/obsidian_processor.py:62 | `"---\na: 1\n---\nbody"` becomes `"body"` |
| NoteFilter.MatcherBounds | src/obsidian_processor.py:65-85 | every pattern's match consumes at least one character and no more than there are |
| NoteFilter.SubAllUnchanged | src/obsidian_processor.py:65-85 | where no match starts anywhere, a substitution changes nothing |
| NoteFilter.WikiLinkUnwrapped | src/obsidian_processor.py:65 | `[[target]]` with no `]` in the target is replaced by the target |
| NoteFilter.NoLinkUnchanged | src/obsidian_processor.py:65 | text without `[` is left unchanged by the link substitution |
| NoteFilter.InlineMatchesDollarPair | src/obsidian_processor.py:75 | `$t$` matches up to the first `$` after the opening one |
| NoteFilter.InlineSkipsDoubleDollar | src/obsidian_processor.py:75 | no inline match starts at `$$` |
| NoteFilter.LoneDollarKept | src/obsidian_processor.py:75 | a lone `$` is kept |
| NoteFilter.InlineTakesInnerPair | src/obsidian_processor.py:75 | the inline substitution turns `$$t$$` into `$LATEX_EXPRESSION: t$` |
| NoteFilter.BlockMatchesPair | src/obsidian_processor.py:77 | the first `$$` after an opening `$$` closes the block |
| NoteFilter.BlockTakesPair | src/obsidian_processor.py:77 | the block substitution turns `$$t$$` into `LATEX_BLOCK: t` |
| NoteFilter.BlockLatexShadowed | src/obsidian_processor.py:75-77 | in the source's order, `$$t$$` ends up as `$LATEX_EXPRESSION: t$`, never as a block placeholder |
| NoteFilter.BlockLatexRecognised | src/obsidian_processor.py:75-77 | with the block substitution first, `$$t$$` becomes `LATEX_BLOCK: t` |
| NoteFilter.RunCollapsed | src/obsidian_processor.py:85 | after a run substitution every run character is a space and no two of them are adjacent |
| NoteFilter.CleanNoteShape | src/obsidian_processor.py:84-87 | the cleaned note is stripped and contains no tab and no two adjacent spaces |
| NoteFilter.BlankLinesGaps | src/obsidian_processor.py:84 | after the blank-line substitution, two newlines are never separated by whitespace only, unless they are adjacent |
| NoteFilter.BlanksGaps | src/obsidian_processor.py:85 | the space-and-tab substitution keeps that property |
| NoteFilter.CleanNoteGaps | src/obsidian_processor.py:84-87 | in the cleaned note, in both substitution orders, two newlines with only whitespace between them are adjacent: every blank-line gap is exactly `"\n\n"` |
| NoteFilter.MarkerLineDropped | src/obsidian_processor.py:128 | a placeholder and the rest of its line are deleted |
| NoteFilter.SpecialDropped | src/obsidian_processor.py:129 | after the second substitution only word characters, whitespace and `.,:;?!()` remain |
| NoteFilter.SpacesKeepMeaningful | src/obsidian_processor.py:130 | collapsing whitespace keeps a text of meaningful characters meaningful |
| NoteFilter.MeaningfulTextShape | src/obsidian_processor.py:128-130 | the measured text is normalized and made of meaningful characters only |
| NoteFilter.LowerPatterns | src/obsidian_processor.py:112-121 | the ignore patterns lower-case to `.obsidian`, `template`, `template`, `.trash` and `trash` |
| NoteFilter.IgnoredPathIff | src/obsidian_processor.py:112-125 | a path is ignored exactly when its lower-cased form contains `.obsidian`, `template` or `trash` |
| NoteFilter.ShouldProcessIff | src/obsidian_processor.py:105-139 | a file is processed exactly when none of the three rejections fires: stripped text of at least 100 characters, no ignored path, and at least 100 meaningful characters |
| Text.Strip | src/llm_client.py:269 | strip() leaves both ends non-space, is no longer than its argument, and empties exactly the all-whitespace strings |
| Text.StripIsInfix | src/llm_client.py:269 | strip() keeps a contiguous piece of its argument, and everything before and after that piece is whitespace; with the non-space ends this is the longest such piece |
| Text.StripTrimmed | src/llm_client.py:269 | strip() leaves a text with non-space ends unchanged |
| Text.SplitOn | src/llm_client.py:264 | split('\n') gives at least one piece, no piece contains a newline, and joining by newlines gives the text back |
| Text.WordsJoinNormalized | src/anki_exporter.py:76 | `' '.join(text.split())` is always normalized |
| Text.ReplaceKeepsNormalized | src/anki_exporter.py:79 | replacing a non-space character by a non-empty word without whitespace keeps a text normalized |

## Left out

- The HTTP calls `_call_ollama` and `_call_lmstudio` are a stream of outcomes, each `Raised` or `Reply(text)`. So are the session and its timeout. The provider switch at src/llm_client.py:102-105 only picks which call takes the next outcome.
- `time.sleep` is not modelled as waiting. The delays are returned as a sequence of seconds.
- `json.loads` is a parameter `decode: string -> Option<Json>`. `None` stands for a decode error. JSON numbers are `real`.
- `_create_prompt` is a fixed text template. It is a parameter `buildPrompt(content, label, language)` of the coordinator.
- Verbose printing is left out throughout.
- File access is left out because it is I/O:
  - `open()`, and the error path of `read_file_content` that returns `""`;
  - `mkdir`, writing the CSV file, and `csv.writer` quoting.
  
  The exporter returns its rows instead.
- The exporter's cards are dicts of string values, `map<string, string>`. A card whose `question`, `answer` or `tags` value is not a string is not modelled.
- `main.py` (the command line and the file loop) and `src/__init__.py` (package metadata) are not part of this model.
- Characters are ASCII only. `\s`, `\w`, `str.isspace`, `str.split()` and `str.lower()` use their ASCII definitions, and non-ASCII whitespace, letters and case mappings are not modelled. Python's regex engine is replaced by one hand-written matcher per pattern.

## Code and documentation

The system's own description differs from the code in places. The model follows the code:

- **A chunk can be empty.** A whitespace-only last paragraph is saved and then stripped to `""` (`Chunker.EmptyChunkExample`).
- **A short note is not trimmed.** Content within the limit is returned unchanged, not trimmed (`Chunker.ShortContentOneChunk`).
- **The size check ignores the separator.** A chunk built from two or more paragraphs can be up to two characters over the limit, and a single paragraph can be any length (`Chunker.LongContentChunks`).
- **The reinforcement can be skipped.** It is appended only when the first request returned a reply without cards. If that request raised, later prompts never carry the reinforcement (`LlmClient.PromptStep`, `LlmClient.DefaultRetryExhausted`).
- **Decoded JSON never falls back.** JSON that decodes but has no valid entries returns `[]`; the heuristic parser is not tried (`ResponseParser.StructuredKeepsValidEntries`).
- **Marker prefixes are character classes.** The class in the question pattern removes single characters, so `"Question: Why?"` gives `"uestion: Why?"` (`ResponseParser.QuestionWordMarker`).
- **Line breaks are escaped.** The comments at src/anki_exporter.py:72 and 78-80 promise `<br>` line breaks for Anki. Line 80 replaces `<br>` with itself after line 78 has escaped `<` and `>`, so a newline ends up as the literal text `&lt;br&gt;` (`AnkiExport.EscapedBreak`, `AnkiExport.CleanNewline`).
- **Some ignore patterns are redundant.** Because matching is case-insensitive, `Template` repeats `template`, and `Trash` also covers `.trash` (`NoteFilter.IgnoredPathIff`).

## Findings

| source | as written | input that shows it | evidently intended | confidence | as-written member | corrected member |
|---|---|---|---|---|---|---|
| src/obsidian_processor.py:75-77 | the inline-LaTeX substitution runs before the block one, so it takes the inner `$x$` of `$$x$$` and the block pattern never matches | `$$x$$` becomes `$LATEX_EXPRESSION: x$` | `$$x$$` becomes `LATEX_BLOCK: x` | not executed | NoteFilter.BlockLatexShadowed | NoteFilter.BlockLatexRecognised |

`NoteFilter.CleanNoteAsWritten` is the chain in the source's order. `NoteFilter.CleanNote` is the chain with the block substitution first. `CleanNoteShape` holds for both.
