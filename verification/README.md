# wb_project answer service: a Dafny model

This project models the question-answering service for pick-up point staff.
The service answers a question from a curated cache of question/answer
pairs when one matches. Otherwise it asks a retrieval-augmented language
model and logs what it generated. Offline scripts build the cache and the
knowledge base from spreadsheets.

Modules, one per source file:

- `Crud` (`db/crud.py`, `db/models.py`): the two tables, `qa_pairs` and
  `answered_questions`, as fields of a `Session` class. Each table is a
  sequence of `(id, question, answer)` rows with an id sequence. There are
  two append-only inserts and the case-insensitive lookup. The query has no
  `ORDER BY`, so the lookup is specified to return the answer of *some*
  matching row.
- `Api` (`app/main.py`): the `/get_answer/` endpoint as a method over the
  session.
  - The retrieval pipeline is a parameter.
  - How the database treats the log insert is a parameter: stored, commit
    failed, or commit done but refresh failed.
  - Each HTTP 500 is a `Response` value.
- `Rag` (`app/rag.py`): the embedder input, the prompt template rendering,
  and `get_answer`. Embedder, retriever and language model are opaque
  functions that return a value or raise with a message. The pipeline
  record carries the embedder prefix and the prompt template.
  `IsAppPipeline` pins both to the constants the application configures.
- `CleanData` (`scripts/clean_data.py`): QA-pair deduplication, chunk
  deduplication, the `part_id` fill, the whole-cell `"/n"` replacement and
  the `<[^>]+>` tag replacement.
- `PrepareData` (`scripts/prepare_data.py`): the `Query:/Answer:` chunk
  text and the appended chunk rows with ids from 2000.
- `QaImport` (`scripts/import_qa_pairs.py`): the strip-and-insert loop,
  as a method that drives `Crud.Session.AddQaPair`.
- Shared modules:
  - `Wrappers`: `Option` and `Result`.
  - `Text`: Python's `str.strip` with Python's whitespace set, and a
    lower-casing map.
  - `Frames`: the pandas operations the scripts use, as pure sequence
    functions: `duplicated`, group filter, `drop_duplicates` with
    `keep="first"`, `"last"` or `False`, and a stable `sort_values`.

## Model

| member | source | states |
|---|---|---|
| Crud.Session.constructor | db/models.py:8-19 | both tables start empty and both id sequences start at 1 |
| Crud.Session.AddQaPair | db/crud.py:7-12 | appends exactly one row with the given question and answer under a fresh id larger than every existing id; returns that row; keeps the id invariant; `answered_questions` unchanged; no deduplication |
| Crud.Session.AddAnsweredQuestion | db/crud.py:15-20 | when the commit goes through, appends exactly one row with the given pair under the next id, and returns it unless the refresh fails; when the commit fails, stores nothing and keeps the id sequence; the call returns a row exactly when both commit and refresh succeed; `qa_pairs` unchanged in every case |
| Crud.Session.GetAnswerFromQaPairs | db/crud.py:23-29 | returns `None` exactly when no row's lower-cased question equals the lower-cased input; otherwise returns the answer of some matching row; modifies nothing |
| Crud.LookupIsCaseInsensitive | db/crud.py:24-26 | two inputs with the same lower-casing admit exactly the same lookup results |
| Crud.LookupOfLowered | db/crud.py:24-26 | looking up the lower-cased input admits the same results as looking up the input |
| Crud.LookupDeterminedWhenAnswersAgree | db/crud.py:25-28 | when all matching rows carry the same answer, the lookup result is unique |
| Crud.UpperCaseQuestionHitsCache | db/crud.py:24-28 | the upper-case spelling of a stored Cyrillic question finds its answer |
| Crud.LeadingSpaceMissesCache | db/crud.py:24-26 | matching does not trim: the stored question with a leading space misses |
| Api.ReturnAnswer | app/main.py:15-30 | hit ⇔ some row matches ⇔ pipeline not called; a hit returns a lookup result and writes nothing; a miss runs the pipeline once on the unmodified question; a pipeline failure is a 500 carrying its message and writes nothing; a successful write appends exactly one log row under the next id and echoes the question with the answer; a failed commit is a 500 with the fixed detail and leaves the log and its id sequence unchanged; a failed refresh is the same 500, with the row already stored; the log's id sequence advances exactly when a row is stored; `qa_pairs` never changes |
| Api.AskTwice | app/main.py:16-24 | an uncached question asked twice runs the pipeline twice, advances the log's id sequence by two, keeps `qa_pairs` and its sequence and the session invariant, and logs two rows, one per generated answer, under consecutive ids, because the log is never consulted; each response carries its own request's answer |
| Rag.EmbedderInput | app/rag.py:36-38 | the embedder receives the instruction prefix followed by the question unchanged |
| Rag.BuildPrompt | app/rag.py:62-78 | the stages run as embedder, then retriever, then prompt builder; when the embedder raises its message is the result, and when the retriever raises after a successful embedding its message is the result; otherwise the prompt is the template rendered for the question and the retrieved documents |
| Rag.GetAnswer | app/rag.py:76-79 | the result carries no surrounding whitespace; a raising stage or language model makes the call fail with its message; an empty reply list fails with the `IndexError` message; otherwise the result is the trim of the first reply |
| Rag.DocumentsBlockConcat | app/rag.py:20-22 | the document loop over a concatenation is the concatenation of the loops |
| Rag.RenderLayout | app/rag.py:15-26 | the prompt opens with the preamble, holds the literal question after all documents, and ends with the assistant header |
| Rag.RenderContainsDocument | app/rag.py:20-22 | every retrieved document's content appears verbatim between the preamble and the question |
| Rag.RenderKeepsRetrievalOrder | app/rag.py:20-22 | an earlier retrieved document's content ends before a later one's begins |
| Rag.QuestionReachesEmbedderAndPrompt | app/rag.py:77-78 | the one question string reaches the embedder after its prefix and the prompt after the documents |
| Rag.AppPromptFraming | app/rag.py:15-26 | with the application's template every prompt opens with the system turn and ends with the assistant header |
| Text.LeadingSpacesRun | app/rag.py:79 | the counted leading run is all whitespace and is followed by a non-space or the end |
| Text.TrailingSpacesRun | app/rag.py:79 | the counted trailing run is all whitespace and is preceded by a non-space or the start |
| Text.StripIsTrim | app/rag.py:79 | `strip` removes a leading and a trailing whitespace run and leaves an unpadded middle, or the empty string for all-whitespace text |
| Text.TrimIsUnique | app/rag.py:79 | that decomposition has exactly one result, so it is the one `strip` returns |
| Text.EmptyTrimIffAllSpace | app/rag.py:79 | the trim is empty exactly when the text is all whitespace |
| Text.Strip | app/rag.py:79 | `str.strip()`: never lengthens the text; what it returns is fixed by `StripIsTrim` and `TrimIsUnique` |
| Text.StripIdempotent | scripts/import_qa_pairs.py:16-17 | stripping twice is stripping once |
| Text.StripIsStripped | scripts/import_qa_pairs.py:16-17 | a stripped text neither starts nor ends with whitespace |
| Text.LowerIdempotent | db/crud.py:24-25 | lower-casing twice is lower-casing once |
| Frames.OccurrencesPositive | scripts/clean_data.py:12 | a key occurs a positive number of times exactly when some row has it |
| Frames.OccurrencesConcat | scripts/clean_data.py:23 | occurrences add up across a concatenation |
| Frames.OccurrencesPermutation | scripts/clean_data.py:17 | reordering rows keeps every key's count |
| Frames.OccurrencesRemoveAt | scripts/clean_data.py:17 | removing one row lowers its key's count by one and keeps the others |
| Frames.MultisetRemoveAt | scripts/clean_data.py:17 | removing the matching row from both of two permuted sequences leaves permuted sequences |
| Frames.Filter | scripts/clean_data.py:12 | boolean-mask selection: a row is kept exactly when it is an input row that passes the test; never longer than its input |
| Frames.FilterOccurrences | scripts/clean_data.py:12 | filtering by a test on the key keeps a passing key's count and zeroes a failing key's count |
| Frames.Duplicated | scripts/clean_data.py:12 | `duplicated(keep=False)`: keeps exactly the rows whose key occurs at least twice |
| Frames.DropAllDuplicates | scripts/clean_data.py:21 | `drop_duplicates(keep=False)`: keeps exactly the rows whose key occurs once, so each such key once and every other key never |
| Frames.Group | scripts/clean_data.py:13 | one `groupby` group: exactly the rows with that key |
| Frames.FilterGroups | scripts/clean_data.py:13-14 | `groupby(...).filter`: keeps a row exactly when the group of its key passes |
| Frames.KeepFirst | scripts/clean_data.py:28-29 | `drop_duplicates(keep="first")`: keeps only input rows; `KeepFirstCount` and `KeepFirstIsFirst` fix which ones |
| Frames.KeepFirstCount | scripts/clean_data.py:28-29 | `drop_duplicates(keep="first")` keeps one row for every key present and none for an absent key |
| Frames.KeepFirstIsFirst | scripts/clean_data.py:28-29 | the row kept for a key is its first occurrence |
| Frames.KeepLast | scripts/clean_data.py:18-19 | `drop_duplicates(keep="last")`: keeps only input rows; `KeepLastCount` and `KeepLastIsLast` fix which ones |
| Frames.KeepLastCount | scripts/clean_data.py:18-19 | `drop_duplicates(keep="last")` keeps one row for every key present and none for an absent key |
| Frames.KeepLastIsLast | scripts/clean_data.py:18-19 | the row kept for a key is its last occurrence |
| Frames.KeepLastOfSortedIsLatest | scripts/clean_data.py:17-19 | after an ascending sort, the row kept last for a key has the largest sort key among its rows |
| Frames.InsertBy | scripts/clean_data.py:17 | insertion adds exactly the one row: the result is the input plus that row, as a multiset |
| Frames.InsertBySorted | scripts/clean_data.py:17 | inserting into a sorted sequence keeps it sorted |
| Frames.InsertByMember | scripts/clean_data.py:17 | each row of the insertion result is the inserted row or a row of the sorted input |
| Frames.SortByMembers | scripts/clean_data.py:25 | sorting neither adds nor loses a row |
| Frames.SortBy | scripts/clean_data.py:25 | `sort_values` is sorted ascending by the key, a permutation of its input, and of the same length |
| CleanData.ConflictingRows | scripts/clean_data.py:12-14 | keeps exactly the input rows whose question occurs at least twice with two different answers |
| CleanData.DedupQaPairs | scripts/clean_data.py:17-25 | the cleaned QA table is sorted ascending by id |
| CleanData.DedupRowsFromInput | scripts/clean_data.py:11-25 | every cleaned row is an input row with unchanged contents |
| CleanData.DedupQuestionCount | scripts/clean_data.py:12-25 | a question occurs once in the output if it was asked once, or asked repeatedly with conflicting answers; otherwise not at all |
| CleanData.ConflictingCount | scripts/clean_data.py:17-19 | the `cleaned_qa_pairs` frame holds exactly one row per conflicting question and none for any other |
| CleanData.DedupUniqueQuestions | scripts/clean_data.py:18-25 | no two cleaned rows share a question |
| CleanData.DedupKeepsSingles | scripts/clean_data.py:21-23 | a row whose question occurs once survives unchanged |
| CleanData.DedupDropsRepeatedAgreeing | scripts/clean_data.py:12-23 | a question asked repeatedly, always with the same answer, is removed entirely |
| CleanData.DedupKeepsLatest | scripts/clean_data.py:12-19 | a question asked repeatedly with conflicting answers keeps exactly one row, the one with the largest id |
| CleanData.LatestSurvivor | scripts/clean_data.py:17-19 | the surviving row for a repeated question has an id at least as large as every input row with that question |
| CleanData.ConflictingSurvivor | scripts/clean_data.py:21-23 | a surviving row for a repeated question comes from the `cleaned_qa_pairs` frame |
| CleanData.DedupChunks | scripts/clean_data.py:28-29 | the deduplicated chunks are sorted by id |
| CleanData.DedupChunksCount | scripts/clean_data.py:28-29 | every chunk text of the input occurs exactly once afterwards, and no other text occurs |
| CleanData.DedupChunksKeepsFirst | scripts/clean_data.py:28-29 | the row kept for a chunk text is the first input row with that text |
| CleanData.FillPartId | scripts/clean_data.py:32 | a missing `part_id` becomes 0; a present one is kept |
| CleanData.ReplaceSlashN | scripts/clean_data.py:37-38 | with `regex=False` a cell equal to "/n" becomes a line break; every other cell is kept, even one that contains "/n" |
| CleanData.FindGt | scripts/clean_data.py:35 | finds the first '>' from a position, or reports that none follows |
| CleanData.TagLength | scripts/clean_data.py:35 | the length of the one match of `<[^>]+>` at the start of the text, or 0 when none starts there |
| CleanData.ReplaceTags | scripts/clean_data.py:39-40 | the replacement never lengthens the text and keeps a text free of '>' free of it; what it returns is fixed by `ReplaceTagsSplit` and `ReplaceTagsKeepsTagFreeText` |
| CleanData.ReplaceTagsSplit | scripts/clean_data.py:35-40 | the leftmost match of `<[^>]+>` becomes one line break, the text before it is kept unchanged, and the scan resumes right after the match |
| CleanData.ReplaceTagsSplitAt | scripts/clean_data.py:35-40 | the same for a match at a given position of the text: everything before it is kept, the match is one line break, the scan resumes after it |
| CleanData.ReplaceTagsAtStart | scripts/clean_data.py:35-40 | a match at the very start becomes one line break and the scan resumes after it |
| CleanData.ReplaceTagsKeepsFirst | scripts/clean_data.py:35-40 | a character at which no match starts is kept, and the scan moves on by one |
| CleanData.NoTagStartsBeforeTail | scripts/clean_data.py:35 | "no match starts before position n" carries over to the text without its first character, one position earlier |
| CleanData.ReplaceTagsLeavesNoTag | scripts/clean_data.py:39-40 | after the replacement no substring matches `<[^>]+>` |
| CleanData.FirstStepCannotOpenTag | scripts/clean_data.py:39-40 | a '<' kept by the scan can never be completed into a match by the rest of the output |
| CleanData.NoTagAcross | scripts/clean_data.py:35 | a character in front of match-free text forms no match unless it is '<' with a later '>' |
| CleanData.NoGtAfterUnclosedTag | scripts/clean_data.py:35 | an unclosed '<' at the start means no '>' follows it |
| CleanData.ReplaceTagsKeepsTagFreeText | scripts/clean_data.py:39-40 | text with no match of the pattern is returned as is |
| CleanData.LineBreakHasNoTag | scripts/clean_data.py:37-40 | the line break a "/n" cell becomes passes the tag replacement unchanged |
| CleanData.ReplaceTagsIdempotent | scripts/clean_data.py:39-40 | replacing twice is replacing once |
| CleanData.CleanChunk | scripts/clean_data.py:32-40 | one cleaned row keeps its id and document, has its `part_id` filled, and holds no match of the pattern; a "/n" cell becomes a line break; other match-free text is kept unchanged |
| CleanData.CleanChunkReplacesLeftmostTag | scripts/clean_data.py:35-40 | in a cleaned chunk the leftmost match becomes one line break, the text before it is kept, and the rest is cleaned the same way |
| CleanData.CleanKnowledgeBase | scripts/clean_data.py:28-40 | the cleaned knowledge base is the deduplicated chunks, each cleaned, in id order |
| PrepareData.Combine | scripts/prepare_data.py:8-9 | the chunk text is "Query: ", the question, "\n\nAnswer: ", then the answer, each at its position |
| PrepareData.PrepareKnowledgeBase | scripts/prepare_data.py:12-17 | the original chunks are a prefix, unchanged; one row follows per QA pair in QA order, the i-th with id 2000+i, document 14, part 0 and the combined text; the length is the sum |
| PrepareData.PreparedIdsDistinct | scripts/prepare_data.py:14-17 | distinct original ids below 2000 stay distinct after the QA rows are appended |
| QaImport.FirstIncomplete | scripts/import_qa_pairs.py:15-17 | the index of the first row with an empty (NaN) cell: every earlier row is complete |
| QaImport.StoredRowIsStripped | scripts/import_qa_pairs.py:16-18 | the stored question and answer are the CSV cells trimmed, with no surrounding whitespace |
| QaImport.ImportedRows | scripts/import_qa_pairs.py:15-18 | one stored row per CSV row |
| QaImport.ImportedRowAt | scripts/import_qa_pairs.py:15-18 | the k-th stored row is the k-th CSV row, stripped, under the k-th next id |
| QaImport.ImportKeepsRepeats | scripts/import_qa_pairs.py:15-18 | repeated CSV rows become repeated table rows, under increasing ids |
| QaImport.ImportedRowsStep | scripts/import_qa_pairs.py:15-18 | one more loop step appends that row under the next id |
| QaImport.ImportQaPairs | scripts/import_qa_pairs.py:12-19 | existing rows are kept; one stripped row is appended per CSV row, in CSV order, with increasing ids, up to the first row with a NaN cell, which ends the import and is reported; `answered_questions` is unchanged |
| QaImport.PaddedCellsStoreEqual | scripts/import_qa_pairs.py:16-17 | cells that differ only in surrounding whitespace are stored identically |

## Left out

- Embedding, vector search and text generation (app/rag.py:28-60) are
  numerical and foreign. They are opaque functions that return a value or
  raise with a message. Sampling, the fixed seed and the vector dimension
  are not modelled.
- Api.ReturnAnswer: `rag` is the pipeline's behaviour on that one request.
  Sampling at temperature 0.6 can make two requests with the same prompt
  answer differently. So the model does not assume that repeated requests
  agree, and `Api.AskTwice` takes one pipeline behaviour per request.
- Api.ReturnAnswer: a database error raised by the lookup query
  (db/crud.py:25-26) is not modelled. The lookup always returns.
  app/main.py:16 does not catch such an error, so the framework answers
  with its generic 500 and nothing is written.
- Haystack's graph execution (app/rag.py:62-73) is reduced to the linear
  order the connections wire.
- The prompt is rendered as the template reads. Each document is
  `"\n    " + content + "\n"`. Jinja's default removal of the one final
  newline is reflected in `AssistantHeader`. Other Jinja features, such as
  autoescaping and `Document` fields other than `content`, are not modelled.
- Text.Lower: the lower-casing is one concrete map, covering ASCII,
  Latin-1 and the basic Cyrillic alphabet with Ё. It is applied to both
  sides of the comparison. Python's `str.lower()` covers all of Unicode,
  and PostgreSQL's `lower()` depends on the collation. Where the two
  differ is not modelled.
- `db/database.py` (engine and session lifecycle), `scripts/init_db.py`
  and `scripts/create_embeddings.py` are I/O and not part of this model.
  So are the Excel and CSV reading and writing in the scripts, the
  frontend `static/js/scripts.js`, and FastAPI's async handling,
  dependency injection and static mount.
- Crud.Session.AddAnsweredQuestion: the three outcomes are a successful
  write, a failed commit, and a successful commit followed by a failed
  refresh. Other failures of `db.add` are not modelled. A failed commit is
  modelled as storing nothing and consuming no id. PostgreSQL may still consume a
  sequence value, so the model does not capture the resulting gap in ids.
  `add_qa_pair` is modelled as always committing.
- QaImport.ImportQaPairs: a database failure during the import is not
  modelled. A NaN cell is the only way the loop stops early. Which CSV
  texts pandas reads as NaN, and cells that are not text, are not
  modelled.
- NULL `question` or `answer` columns are not modelled. Every stored row
  holds text.
- Frames.SortBy: the model's sort is stable, but pandas' default
  `sort_values` is quicksort and not stable. The model assumes that the
  `id` columns of the spreadsheets are unique; nothing in the scripts
  checks this. When ids repeat, two things are not modelled:
  - the relative order of rows with equal ids after each sort;
  - which of several rows with the largest id `keep="last"` keeps
    (scripts/clean_data.py:18-19).
  The largest-id property of `CleanData.DedupKeepsLatest` holds either
  way.
- Crud.Session.GetAnswerFromQaPairs: which matching row PostgreSQL returns
  first is not modelled. The contract allows any matching row, as the
  query's missing `ORDER BY` does.
- CleanData: pandas treats an empty `question` or `chunk` cell as NaN and
  groups NaN keys apart. The model's rows always hold text, and a missing
  `part_id` is the only missing cell. `part_id` becoming a float column
  after `fillna` is not modelled.
- Rag.GetAnswer: the model takes the embedder prefix and the template as
  fields of the pipeline. `IsAppPipeline` states that they are the
  application's constants. `Rag.AppPromptFraming` states what follows for
  that template.
