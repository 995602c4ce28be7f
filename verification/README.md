# GRE study backend: spaced repetition, vector index, sessions and imports

A Dafny model of the core of a GRE vocabulary and question-practice backend.
Everything runs over in-memory tables (sequences and maps). Time (`now`), the
language model and the JSON decoder are parameters.

- **SM-2 engine** (`Srs`, `srs_engine.dfy`). It covers:
  - the ease/interval/repetition update of one review and its application to a stored word;
  - the due-word queue, ordered with undated words first and then by due date;
  - the new-word query and the review statistics.
- **Vector index** (`VectorStore`, `vector_store.dfy`). The index is a flat
  sequence of vectors plus a mapping table from vector id to `(object_id,
  object_type)`. It covers:
  - `add_vector`, whose id is the vector count before the append;
  - `search`, a brute-force ranking by squared L2 distance, then the top `k`
    resolved through the mapping table, with unmapped ids skipped and the type
    filter applied after ranking;
  - `delete_vector`, which removes only the mapping row;
  - `rebuild_index` as written, and the compaction it evidently stands in for.
- **Practice sessions** (`PracticeSession`, `session.dfy`). It covers:
  - the item list of `start_session`: due words first, then topic-matching
    questions, everything capped at the limit;
  - `record_attempt`: the attempt is logged, and a correct answer on a known
    word counts as quality 4, a wrong one as quality 2;
  - the accuracy of `get_session_stats`.
- **Imports** (`ImportRoutes`, `import_routes.dfy`). It covers:
  - the file-name checks;
  - paragraph chunking of PDF page text and the 50-character filter;
  - normalisation of an extraction reply to a list, and the shaping of question records;
  - Anki note shaping: field split on `\x1f`, stripped word and definition,
    the 100-character short definition and the tags;
  - skipping words already stored.
- **Model client** (`Gemini`, `gemini_client.dfy`). It covers the code-fence
  extraction of `generate_json` and the deterministic embedding of the mock
  client.
- **Supporting modules**:
  - `Text` models Python's `in`, `split(sep)`, `sep.join`, `strip()` and `split()`.
    Whitespace is the full `str.isspace` set, including `\x1c`–`\x1f`;
  - `Seqs` and `Sorting` hold filters, counts, prefixes and a stable insertion sort;
  - `JsonValue` holds JSON values, Python truthiness and `dict.get`;
  - `Wrappers` holds `Option` and `Result`.

Where the model follows the code rather than a natural reading of it:

- **Quality is not range-checked.** `CalculateNextReview` accepts any integer
  quality, as the code does. The facts that need `0 <= quality <= 5` are stated
  as lemmas with that hypothesis.
- **Missing PDF question type.** The second tag of a PDF question is
  `q_data.get("detected_type", "unknown")`. A key that is present with value
  `null` keeps the `null` (`ImportRoutes.NullTypeIsKept`).
- **Fence cut is a double split.** The JSON candidate is cut by two literal
  splits. The cut ends where a fence begins, and no fence lies wholly inside
  the candidate. That fence is not always the first "```" after the opener:
  in "```json5`````json" the candidate is "5``".
- **Non-object entries.** An extraction entry that is not an object raises on
  `.get`. This ends the chunk but keeps the questions already made from it.
- **Duplicate Anki words.** The model assumes the session does not
  autoflush, as the sessions of backend/tests/conftest.py:21 are configured
  (the application's own database module is not part of this model). Under
  that assumption the stored-word check of the Anki import does not see
  records added earlier in the same deck, and a deck that repeats a new word
  fails as a whole at commit, on the unique `word` column.
- **Unstorable PDF questions.** The PDF import commits all its questions at
  once. Question text, answer, explanation and difficulty are `String`
  columns, so a reply that puts a list or object in one of them (a two-answer
  sentence-equivalence item, say) fails the whole import
  (`ImportRoutes.ListAnswerFailsImport`).

## Model

| member | source | states |
|---|---|---|
| Srs.CalculateNextReview | backend/app/services/srs_engine.py:16-55 | the new ease is at least 1.3; it is the raised ease whenever that is above the floor; a quality below 3 resets to interval 1 and 0 repetitions; a success counts one more repetition, with intervals 1 and 3 for the first two and then floor(previous interval × new ease) |
| Srs.EaseDeltaMonotone | backend/app/services/srs_engine.py:36 | before the floor, a better quality (up to 5) never changes the ease by less |
| Srs.EaseDeltaByQuality | backend/app/services/srs_engine.py:36 | quality 5 raises the ease by 0.1, quality 4 leaves it unchanged, qualities 0–3 lower it by at least 0.14 |
| Srs.EaseRisesAtMostATenth | backend/app/services/srs_engine.py:36-37 | on an ease at the floor or above, a review raises it by at most 0.1, keeps it at quality 4, and lowers it at quality ≤ 3 unless it is at the floor |
| Srs.IntervalNeverShrinks | backend/app/services/srs_engine.py:50-53 | from the third success on the interval never shrinks, and from 4 days on it grows by at least a day |
| Srs.ReplayCountsStreak | backend/app/services/srs_engine.py:40-46 | after any history of reviews the repetition count is the number of successes since the last failure, or the starting count plus the history length when nothing failed |
| Srs.ReviewKeepsSettled | backend/app/services/srs_engine.py:40-53 | a review leaves an interval of at least one day and keeps "two successes ⇒ interval ≥ 3" |
| Srs.ReplayKeepsSettled | backend/app/services/srs_engine.py:40-53 | the same invariant holds after any sequence of reviews |
| Srs.MakeEngine | backend/app/services/srs_engine.py:12-14 | a non-zero requested ease is kept as the engine's default; an absent or zero request falls back to 2.5, so the default is never zero |
| Srs.UpdateWordSrs | backend/app/services/srs_engine.py:57-92 | the word's schedule is one SM-2 step from its stored columns (null ease or zero reads as the default, null interval and repetitions as 0); the last result is quality ≥ 3; next due is now + interval days; id and text are unchanged |
| Srs.DueQueueMembers | backend/app/services/srs_engine.py:114-123 | a word is in the due queue exactly when it is in the table and due (undated only with include_new, dated when due ≤ now) |
| Srs.GetDueWords | backend/app/services/srs_engine.py:94-128 | at most `limit` words, each due at `now`; undated words come before dated ones, dated ones by ascending due date; a sub-multiset of the table; fewer than `limit` only when every due word is returned |
| Srs.SkippedDueWordsComeLater | backend/app/services/srs_engine.py:125-128 | a due word cut off by the limit is due no earlier than every word returned |
| Srs.NewWordsLimit | backend/app/services/srs_engine.py:145 | a positive limit is used as given; a missing or zero limit becomes the daily default of 50, so the effective limit is never zero |
| Srs.GetNewWords | backend/app/services/srs_engine.py:130-149 | at most the effective limit of undated words from the table, all of them when fewer |
| Srs.GetReviewStats | backend/app/services/srs_engine.py:151-171 | new and due are the counts of undated and overdue words; upcoming equals the count of words due after now, so it is never negative and the four numbers add up to the total |
| Srs.StatsMatchDueQueue | backend/app/services/srs_engine.py:160-164 | new + due is the length of the due queue with new words, and due is the length without them |
| Srs.ReviewedWordIsNotDue | backend/app/services/srs_engine.py:83-87 | a settled word that has just been reviewed is due at least a day later, is not in the due queue and stays settled |
| VectorStore.EmptyStore | backend/app/services/vector_store.py:16-19 | a new index has its dimension, no vectors and no mappings |
| VectorStore.AddVector | backend/app/services/vector_store.py:47-75 | a wrong-length vector is refused and nothing changes; otherwise it is appended, and the id is the count before the append with its mapping row set to the object; a row already holding that id makes the insert fail but the vector stays |
| VectorStore.AddKeepsValid | backend/app/services/vector_store.py:56-69 | on a valid index, an add of the right length succeeds with the old count, grows the index by one, maps the id to the given object and keeps the index valid |
| VectorStore.AddAllSequentialIds | backend/app/services/vector_store.py:59-60 | successive adds return consecutive ids starting at the current count and grow the index by their number |
| VectorStore.DeleteVector | backend/app/services/vector_store.py:121-132 | only that id's mapping row is removed; the vectors and the other rows are unchanged; deleting an unmapped id changes nothing |
| VectorStore.DeleteDoesNotReuseIds | backend/app/services/vector_store.py:121-132 | deletion keeps the index valid, and the next add still gets the old count as its id |
| VectorStore.SqDist | backend/app/services/vector_store.py:19 | the distance is non-negative and zero from a vector to itself |
| VectorStore.Ranking | backend/app/services/vector_store.py:97 | the ranking is a permutation of all scored vectors, nearest first |
| VectorStore.KeepResolvable | backend/app/services/vector_store.py:101-117 | exactly the ranked ids with a mapping row of the requested type survive; a ranking sorted by distance stays sorted |
| VectorStore.Survivors | backend/app/services/vector_store.py:97-117 | the survivors are exactly the entries of the min(k, count) nearest that have a mapping row of the requested type, nearest first |
| VectorStore.Search | backend/app/services/vector_store.py:77-119 | an empty index gives []; otherwise a wrong-length query or k ≤ 0 is an error; without a db handle the result is []; results are at most min(k, count), in ascending distance, of the requested type, and each is a mapped stored vector at its true distance |
| VectorStore.SearchResolves | backend/app/services/vector_store.py:100-117 | with a db handle, a search the index accepts reports the resolved survivors |
| VectorStore.SearchIsNearest | backend/app/services/vector_store.py:97-117 | a mapped vector of the requested type strictly closer than some reported hit is reported too |
| VectorStore.SearchFindsNear | backend/app/services/vector_store.py:97-117 | whatever the tie order, a mapped vector of the requested type is reported when at most k stored vectors, itself included, are no farther from the query |
| VectorStore.SearchNearestComesFirst | backend/tests/test_vector_store.py:30-49 | a mapped vector of the requested type strictly nearer the query than every other stored vector is the first hit, as the search test expects of obj1 |
| VectorStore.SearchAllWhenKLarge | backend/app/services/vector_store.py:97-117 | when k covers the index, every mapped vector of the requested type is reported |
| VectorStore.AddThenSearchFindsIt | backend/app/services/vector_store.py:47-119 | after adding one vector to an empty index, searching with it finds exactly that object at distance 0, with or without a matching type filter |
| VectorStore.DeleteOnlyDropsThatId | backend/app/services/vector_store.py:121-132 | after a delete, searches resolve the same survivors minus the deleted id |
| VectorStore.RebuildIndex | backend/app/services/vector_store.py:134-150 | a rebuild leaves no vectors and every mapping row untouched |
| VectorStore.SearchAfterRebuildIsEmpty | backend/app/services/vector_store.py:134-150 | after a rebuild every search returns [] |
| VectorStore.RebuildBreaksInvariant | backend/app/services/vector_store.py:134-150 | a rebuild of an index that still maps anything breaks "every mapped id is a stored vector" |
| VectorStore.RebuildThenAddCollides | backend/app/services/vector_store.py:134-150 | after a rebuild, the next add is given id 0 again and fails on the existing row 0 after appending its vector |
| VectorStore.CompactIndex | backend/app/services/vector_store.py:134-150 | the intended rebuild: the live vectors, in id order, are copied to dense ids with their mappings, and every new id is mapped |
| VectorStore.CompactIndexRestoresInvariant | backend/app/services/vector_store.py:134-150 | compaction yields a valid index no larger than before |
| VectorStore.CompactThenAddSucceeds | backend/app/services/vector_store.py:134-150 | after compaction, an add succeeds with the next dense id |
| VectorStore.CompactKeepsObjects | backend/app/services/vector_store.py:134-150 | every live object is still stored after compaction, with the same vector and mapping |
| Text.Split | backend/app/routers/import_routes.py:41 | `s.split(sep)` has at least one piece, no piece contains the separator, and it has two or more pieces exactly when the separator occurs |
| Text.JoinSplit | backend/app/routers/import_routes.py:41 | joining the pieces of a split with the separator gives back the text |
| Text.Strip | backend/app/services/gemini_client.py:71 | `strip()` returns a slice of the text with only whitespace removed at either end; the result neither starts nor ends with whitespace, and it is empty exactly when the text is all whitespace |
| Text.StripKeepsAbsence | backend/app/services/gemini_client.py:67 | stripping never creates an occurrence of a pattern |
| Text.SplitWhitespace | backend/app/routers/import_routes.py:153 | the pieces of `split()` are non-empty and free of whitespace |
| Text.SplitWhitespaceRuns | backend/app/routers/import_routes.py:153 | the text is its `split()` pieces interleaved with whitespace runs, non-empty between two pieces, so the piece boundaries are exactly the maximal non-whitespace runs |
| Text.SplitWhitespaceKeepsText | backend/app/routers/import_routes.py:153 | `split()` loses exactly the whitespace: the pieces glued together are the text with its whitespace deleted |
| Gemini.FenceCandidate | backend/app/services/gemini_client.py:64-71 | with no fence the candidate is the stripped reply; with "```json" present it is the stripped text after the first "```json" up to a fence or the end, whether or not a bare fence comes earlier; with only bare fences, the same after the first fence; in both fenced cases it contains no fence |
| Gemini.FencedBodyIsRecovered | backend/app/services/gemini_client.py:66-67 | a backtick-free body wrapped in "```json" … "```" comes back as the stripped body |
| Gemini.GenerateJson | backend/app/services/gemini_client.py:60-75 | the result is the decoded candidate when decoding succeeds and an error otherwise, never data |
| Gemini.UnfencedReplyIsStripped | backend/app/services/gemini_client.py:70-73 | a reply without fences succeeds exactly when its stripped text decodes |
| Gemini.MockEmbedding | backend/app/services/gemini_client.py:158-165 | a registered embedding is returned verbatim; otherwise there are 768 entries, each `(h >> i) % 100 / 100` and so in [0, 0.99] |
| Gemini.MockEmbeddingFitsStore | backend/app/services/gemini_client.py:163-165 | a made-up embedding fits the default 768-dimensional index and is added with id 0 to an empty one |
| Gemini.MockEmbeddingFindsItself | backend/app/services/gemini_client.py:158-165 | searching with a text's made-up embedding after adding it finds that object at distance 0 |
| ImportRoutes.PageChunks | backend/app/routers/import_routes.py:37-42 | a page without text gives no chunks; otherwise its paragraphs joined with a blank line give back the page; no chunk contains a blank line |
| ImportRoutes.TextChunks | backend/app/routers/import_routes.py:34-42 | the chunks of all pages: none contains a blank line, and every page with text adds at least one |
| ImportRoutes.TextChunksAppend | backend/app/routers/import_routes.py:37-42 | chunking works page by page, so the chunks of two runs of pages are the two runs' chunks in order |
| ImportRoutes.Normalize | backend/app/routers/import_routes.py:57-58 | a list reply is kept; any other reply becomes a one-element list when truthy and an empty list when falsy |
| ImportRoutes.QuestionOf | backend/app/routers/import_routes.py:62-70 | each field is the entry's value under its key when present, even `null`; absent keys give "" for text and answer, `null` for choices and explanation, "unknown" for difficulty and type; the source is "PDF: " + file name and the tags are "pdf_import" then the type |
| ImportRoutes.EntryQuestions | backend/app/routers/import_routes.py:60-73 | every question made has a truthy question text, two tags starting with "pdf_import", and the PDF source; there are no more questions than entries |
| ImportRoutes.EntryQuestionsStopAtNonObject | backend/app/routers/import_routes.py:60-77 | nothing after the first entry that is not an object contributes |
| ImportRoutes.EntryQuestionsOfObjects | backend/app/routers/import_routes.py:60-73 | when every entry is an object, one question is made per entry with a truthy `question_text`, and each such entry's question is among them |
| ImportRoutes.EntryQuestionsInOrder | backend/app/routers/import_routes.py:60-73 | when every entry is an object, the questions are those of the entries with a truthy `question_text`, in entry order |
| ImportRoutes.EntryQuestionsAppend | backend/app/routers/import_routes.py:60-77 | a run of object entries contributes its questions and lets the following entries contribute theirs |
| ImportRoutes.NullTypeIsKept | backend/app/routers/import_routes.py:69 | a `detected_type` that is present but `null` stays `null` in the tags |
| ImportRoutes.ChunkQuestions | backend/app/routers/import_routes.py:47-77 | a chunk whose stripped length is under 50 gives nothing; a failed extraction gives nothing; otherwise the chunk gives the questions of the normalised extraction's entries; every question is well shaped |
| ImportRoutes.AllQuestions | backend/app/routers/import_routes.py:47-77 | the questions of all chunks are well shaped |
| ImportRoutes.AllQuestionsAppend | backend/app/routers/import_routes.py:47-77 | the questions of two runs of chunks are the first run's questions followed by the second's |
| ImportRoutes.ChunkQuestionsInAll | backend/app/routers/import_routes.py:47-77 | each chunk's questions sit, in order, between those of the chunks before it and those after it |
| ImportRoutes.ExtractedQuestionIsImported | backend/app/routers/import_routes.py:47-77 | a texted object entry of a long chunk's successful extraction, preceded only by objects, becomes one of the questions gathered from all chunks |
| ImportRoutes.OnlyLongChunksAreSent | backend/app/routers/import_routes.py:48-55 | the model is consulted only on chunks of stripped length 50 or more: extractors that agree there give the same questions |
| ImportRoutes.ShortChunksGiveNothing | backend/app/routers/import_routes.py:48-50 | chunks that are all short give no questions, whatever the model says |
| ImportRoutes.ImportPdf | backend/app/routers/import_routes.py:16-102 | a name not ending in ".pdf" is rejected before anything else; otherwise the import fails exactly when some question holds a JSON list or object in a `String` column, since all questions are committed at once; on success every chunk is counted as processed, the questions are those of all chunks in chunk order, and every question is well shaped and storable |
| ImportRoutes.ListAnswerFailsImport | backend/app/routers/import_routes.py:60-102 | a texted object entry whose `answer` is a list, reached in a long chunk's successful extraction, makes the whole PDF import fail |
| ImportRoutes.Pithy | backend/app/routers/import_routes.py:169 | the short definition is a prefix of the definition, at most 100 characters, the whole definition exactly when it has at most 100 |
| ImportRoutes.WordOfNote | backend/app/routers/import_routes.py:151-172 | a note gives a record exactly when its fields contain `\x1f`; the record's tags are "anki_import" then the note's whitespace-split tags, its source is "Anki: " + file name and its short definition is the cut definition |
| ImportRoutes.WordOfNoteFields | backend/app/routers/import_routes.py:152-158 | the word is the stripped text before the first `\x1f`, the definition the stripped text between it and the next one; neither contains `\x1f` |
| ImportRoutes.WordOfNoteTags | backend/app/routers/import_routes.py:153-170 | the tags after "anki_import" keep every non-space character of the note's tag string, in order |
| ImportRoutes.NewWords | backend/app/routers/import_routes.py:151-175 | no imported record has a word already stored, and each carries the Anki source |
| ImportRoutes.NewWordsComplete | backend/app/routers/import_routes.py:155-175 | every note with two fields whose word is not stored yet is imported |
| ImportRoutes.NewWordsSound | backend/app/routers/import_routes.py:151-175 | every imported record is the record of one of the notes |
| ImportRoutes.ImportAnki | backend/app/routers/import_routes.py:105-177 | a name not ending in ".apkg" is rejected first, then a package without a collection; otherwise the import succeeds exactly when no new word repeats, and then the records are exactly NewWords of the notes, so none has a stored word and every short definition is at most 100 characters |
| PracticeSession.MatchingQuestions | backend/app/routers/session.py:51-55 | exactly the questions tagged with every requested topic other than "vocab" |
| PracticeSession.SessionQuestions | backend/app/routers/session.py:47-57 | at most `room` questions, each matching the topics |
| PracticeSession.StartSession | backend/app/routers/session.py:16-69 | at most `limit` items; word items come before question items; no words unless the topics are empty or include "vocab"; no questions unless they are empty or include "quant" or "verbal"; every word is due and every question matches the topics |
| PracticeSession.StartSessionLayout | backend/app/routers/session.py:33-68 | the items are the due words in `get_due_words` order followed by at most limit − (number of words) questions, so the final cut removes nothing |
| PracticeSession.StartSessionFillsUp | backend/app/routers/session.py:35-57 | fewer words than the limit means every due word is served, and the questions fill the remaining room as far as matching ones exist |
| PracticeSession.QualityFor | backend/app/routers/session.py:107 | a correct answer is quality 4 and a wrong one quality 2, both within 0–5 |
| PracticeSession.QualityForIsSuccess | backend/app/routers/session.py:106-108 | the mapped quality is an SM-2 success exactly when the answer was right; a right answer keeps the ease before the floor and a wrong one lowers it |
| PracticeSession.FindWord | backend/app/routers/session.py:103 | the position of the first word with that id, or none exactly when no word has it |
| PracticeSession.RecordAttempt | backend/app/routers/session.py:76-110 | the attempt is appended to the log; only a "word" attempt about an existing word changes the word table, and then only that word, by one review with the mapped quality |
| PracticeSession.AttemptOutcome | backend/app/routers/session.py:102-108 | a wrong answer makes the word due again a day later with 0 repetitions; a right one adds a repetition and keeps an ease above the floor |
| PracticeSession.AnsweredWordLeavesQueue | backend/app/routers/session.py:102-108 | a settled word that was just answered is not in the due queue at the same moment |
| PracticeSession.GetSessionStats | backend/app/routers/session.py:117-132 | the review counts plus the attempt counts; accuracy is in [0, 1], 0 with no attempts, and accuracy × total = correct otherwise |
| PracticeSession.Accuracy | backend/app/routers/session.py:130 | the share of correct attempts, in [0, 1], 0 when there are no attempts |
| PracticeSession.RecordAttemptCounts | backend/app/routers/session.py:88-130 | recording an attempt adds one to the total and, when it was right, one to the correct count |
| PracticeSession.PerfectAccuracy | backend/app/routers/session.py:125-130 | accuracy is 1 exactly when there were attempts and every one was right |

## Left out

- I/O and persistence are not modelled: the database session (commit, refresh, rollback), FAISS index files, periodic saves every 100 adds, pickle, upload reading, pdfplumber, zip and sqlite handling, temporary directories. Tables are sequences and maps; whether a page has text and whether the package holds `collection.anki2` are inputs.
- The wall clock is a parameter `now` in whole seconds; `timedelta(days=n)` is `n * 86400`.
- Floating point: ease, distances and accuracy are exact reals. float32 rounding in the index and float rounding of the ease are not modelled.
- FAISS internals are not modelled. Ranking is a stable sort by squared L2 distance, and contracts only promise ascending distance, so tie order is left open as in the index. FAISS's −1 padding cannot arise because at most `count` neighbours are requested.
- The real model API calls are not modelled (`generate_text`, the real `generate_embedding`, `function_call`). The extractor and the decoder standing in for `json.loads` are function parameters, and the mock's md5 hash is an opaque natural number.
- The mock client's canned `generate_text`, `generate_json` (mnemonic reply) and `function_call` responses are fixed test data and are not modelled.
- The prompt templates are not part of this model.
- The embedding loops at the end of both imports are not modelled. An error in `generate_embedding` is only printed. A failed mapping insert in `add_vector` is printed too, but it leaves the session needing a rollback, so the route's final commit raises and the route reports a 500 although its questions or words were already committed. That insert fails on the row-0 collision after `rebuild_index` (see "## Findings") or when the saved index lags the mapping table after a restart. The success results of `ImportRoutes.ImportPdf` and `ImportRoutes.ImportAnki` do not cover this path.
- HTTP status mapping is not modelled: the rejections are error values. Inside the handlers' `try`, an `HTTPException` (invalid package) is turned into a 500 by the surrounding `except`; the model keeps the error kind.
- Session rows (`end_session`, session id and mode), the attempt fields other than `correct` and the item payload (`to_dict`) are not modelled.
- PracticeSession.MatchingQuestions: the JSON containment test `tags.contains([topic])` is modelled as list membership.
- PracticeSession.StartSession: `limit` is a natural number, so the request schema's 1–100 bound is not required and a negative SQL `LIMIT` cannot arise.
- ImportRoutes.ImportAnki: the duplicate-word outcome assumes a session without autoflush, as configured in backend/tests/conftest.py:21; the application's database module is not part of this model, and with autoflush on, a repeated word would be skipped instead of failing the import.
- ImportRoutes.ImportPdf: which values the database driver binds to a `String` column follows sqlite's Python driver (text, numbers, booleans and `None` bind; lists and dicts do not); the `questions` columns come from backend/app/models/question.py:14-22.
- Srs.GetDueWords: rows with equal due dates come back in an order the database chooses; the contract fixes only the due-date order.
- Srs.CalculateNextReview: interval and repetitions are natural numbers; negative stored values are not modelled.
- Gemini.FenceCandidate: the contract says the cut ends where a fence begins and that no fence lies wholly inside the candidate, not that it ends at the first "```", because the double split does not always end there.
- The vector-id truthiness checks of the word routes, which never delete the mapping of vector 0, are outside this model (the word routes are not part of it).

## Findings

| source | as written | input that shows it | evidently intended | confidence | as-written member | corrected member |
|---|---|---|---|---|---|---|
| backend/app/services/vector_store.py:134-150 | `rebuild_index` replaces the index with an empty one and keeps every mapping row, so the next `add_vector` gets id 0 again | an index with vector 0 still mapped, rebuilt, then any add of the right length: the vector is appended and the mapping insert fails on the existing row 0 | the live vectors are copied into the new index and the mappings renumbered, so later adds get fresh ids | not executed; the code is marked as a placeholder | VectorStore.RebuildThenAddCollides | VectorStore.CompactThenAddSucceeds |
