# yt-qna-server core in Dafny

yt-qna-server answers questions about YouTube videos. To add a video, it
takes the video id from the URL and stores the video's metadata. It then
cuts the transcript into overlapping windows of entries, embeds each window
and stores the windows as transcript chunks. To answer a question, it
validates the request and finds the video. Next it embeds the question and
selects two things by cosine similarity: the most similar chunks of that
video and the most similar earlier answers about it. It builds a prompt
from them and streams the generated answer to the client as server-sent
events. Finally it stores the question, the answer, the answer's embedding
and the start time of the best chunk.

This project models the two controllers that hold that logic:

- `src/controllers/addVideoController.ts`: the URL check, the video-id
  extraction, the sliding-window chunker, the embed-and-insert loop, and
  the order of the steps.
- `src/controllers/askQuestionController.ts`: request validation with
  `Number()` and truthiness, the video lookup, the two similarity queries,
  the context, history and prompt strings, the most relevant timestamp,
  the streaming loop, and the final insert and done/error event.

The model follows the code as written, including where it departs from
the intended design:

- `addVideo` has no duplicate-video check. It inserts the video row before
  chunking and embedding, and it rolls nothing back. When embedding or a
  chunk insert fails, the response is 500, and the video row and the chunk
  rows already written stay.
- The `if (video)` branch at addVideoController.ts:39-43 always takes the
  200 side, because `.returning()` yields an array. Its 400 side is
  unreachable, so the model has no such outcome.
- When the answer embedding fails (askQuestionController.ts:137), the
  client gets an Error event and no question row is written. Nothing is
  stored with a missing embedding.
- `url.split("v=")[1]` is the text between the first "v=" and the next
  "v=" or the end of the URL. Query parameters after the id are kept
  (`Ingestion.QueryParametersKept`).
- Thirty one-second entries with the default window of 15 and overlap of
  3 give three chunks. They start at entries 0, 12 and 24.
- The chunker does not guard against `overlap >= elementsPerChunk`.
  With positive and equal values and a non-empty transcript, `i`
  stays 0 and the loop never ends (with both 0 the first slice is empty
  and the `break` ends the loop at once). With `overlap > elementsPerChunk`,
  `i` goes negative and `slice` counts from the end of the transcript,
  until a slice is empty and the `break` at addVideoController.ts:59
  ends the loop. For example, 30 entries with `elementsPerChunk` 3 and
  `overlap` 15 give the windows of entries 0-2, 18-20 and 6-8, in that
  order. The only call, at line 34, uses the defaults 15 and 3. The model
  makes `overlap < elementsPerChunk` a precondition; under it the `break`
  is unreachable.

External services become parameters of the model:

- the YouTube metadata and transcript fetches (their results, or None for a
  failure);
- the Gemini embedding model (a function from texts to optional vectors);
- the similarity the database computes (a function of two vectors);
- the Gemini stream (a sequence of optional fragment texts and the point
  where it throws);
- the failures of database inserts (flags).

`AskQuestion` also returns the requests it makes to the two models, in
order. Its contract can therefore say that nothing is requested before
validation and the lookup succeed.

Modules:

- `Math`: `Min`.
- `Text`: JavaScript `join`, `split`, `indexOf`, `trim` and `+=`
  accumulation.
- `Chunking`: `chunkTranscript`.
- `Store`: the three tables, as a class of append-only sequences.
- `Ingestion`: `extractYoutubeVideoId`, `embedChunks` and `addVideo`.
- `Retrieval`: the two queries, as filter, sort and limit.
- `Prompt`: context, history block, prompt and timestamp.
- `Streaming`: the `for await` loop.
- `Ask`: validation and `askQuestion`.
- `Wrappers`: `Option`.

## Model

| member | source | states |
|---|---|---|
| Text.Find | src/controllers/addVideoController.ts:51 | the index returned is an occurrence of the separator at or after the start, with no earlier one; None means no occurrence at all |
| Text.Split | src/controllers/addVideoController.ts:51 | splitting on a non-empty separator yields at least one piece |
| Text.SplitJoin | src/controllers/addVideoController.ts:61 | splitting a join on a one-character separator that no part contains gives the parts back |
| Text.JoinAppend | src/controllers/askQuestionController.ts:71 | joining one more part appends the separator and the part |
| Text.ConcatAppend | src/controllers/askQuestionController.ts:132 | accumulating two runs of texts one after the other gives the two accumulations concatenated |
| Text.TrimStart | src/controllers/askQuestionController.ts:106-113 | the result is a suffix of the input, everything dropped is whitespace, and it does not start with whitespace |
| Text.TrimEnd | src/controllers/askQuestionController.ts:106-113 | the result is a prefix of the input, everything dropped is whitespace, and it does not end with whitespace |
| Text.TrimStartSkips | src/controllers/askQuestionController.ts:113 | leading whitespace before a body that starts with non-whitespace is removed exactly |
| Text.TrimEndSkips | src/controllers/askQuestionController.ts:113 | trailing whitespace after a body that ends with non-whitespace is removed exactly |
| Text.TrimSurrounded | src/controllers/askQuestionController.ts:106-113 | trimming whitespace around a body that begins and ends with non-whitespace gives exactly the body |
| Chunking.ChunkTranscript | src/controllers/addVideoController.ts:55-68 | the loop stepping by elementsPerChunk - overlap builds exactly the window-by-window chunk list: chunk k is made from entries k*step up to k*step + elementsPerChunk, clipped to the transcript |
| Chunking.ChunkCountIsCeil | src/controllers/addVideoController.ts:57 | there are exactly ceil(n / step) chunks, and none exactly when the transcript is empty |
| Chunking.ChunkAt | src/controllers/addVideoController.ts:57-63 | chunk k starts at entry k*step, holds between 1 and elementsPerChunk entries, starts at its first entry's offset and ends at its last entry's offset plus duration |
| Chunking.ChunkTextWords | src/controllers/addVideoController.ts:61 | a chunk's text split on spaces gives its entries' texts in transcript order, when entry texts hold no space |
| Chunking.Coverage | src/controllers/addVideoController.ts:57-58 | every transcript entry lies in the window of some chunk |
| Chunking.OverlapShared | src/controllers/addVideoController.ts:57-58 | a full chunk's last `overlap` entries are the next chunk's first `overlap` entries |
| Chunking.ChunkTimesOrdered | src/controllers/addVideoController.ts:62-63 | with non-decreasing offsets and non-negative durations, every chunk starts no later than it ends |
| Chunking.SingleEntry | src/controllers/addVideoController.ts:55-68 | one entry gives one chunk spanning exactly that entry |
| Chunking.TwoEntries | src/controllers/addVideoController.ts:55-68 | entries "a" (0 s, 1 s) and "b" (1 s, 1 s) give the single chunk "a b" from 0 to 2 |
| Chunking.ThirtyEntries | src/controllers/addVideoController.ts:55-68 | thirty one-second entries with the defaults give three chunks starting at 0, 12 and 24 s and ending at 15, 27 and 30 s |
| Store.Database.constructor | src/db/schema.ts:3-11 | a new database has empty tables and hands out id 1 first |
| Store.Database.InsertVideo | src/controllers/addVideoController.ts:25-32 | the video row gets a fresh identity id, different from every existing id; it is appended and the other tables are unchanged |
| Store.Database.InsertChunk | src/controllers/addVideoController.ts:89-95 | the chunk row is appended and nothing else changes |
| Store.Database.InsertQuestion | src/controllers/askQuestionController.ts:139-146 | the question row is appended and nothing else changes |
| Store.FindIn | src/controllers/askQuestionController.ts:43-45 | a video is found exactly when some row's id equals the number, and the row found has that id |
| Ingestion.VideoIdBetweenMarkers | src/controllers/addVideoController.ts:50-53 | the id is undefined exactly when the URL holds no "v="; otherwise it is the text between the first "v=" and the next "v=" or the end |
| Ingestion.IdAfterOnlyMarker | src/controllers/addVideoController.ts:51 | when the URL holds no "v=" other than the one after the prefix, the id is everything after that "v=" |
| Ingestion.QueryParametersKept | src/controllers/addVideoController.ts:51 | "watch?v=abc&t=1" gives the id "abc&t=1", query parameter included |
| Ingestion.InsertsDone | src/controllers/addVideoController.ts:88-96 | fewer rows than chunks are written exactly when an insert within range throws |
| Ingestion.EmbedChunks | src/controllers/addVideoController.ts:70-101 | with no embeddings or a count differing from the chunk count, it fails with no chunk row written; otherwise row i pairs chunk i with embedding i (or []) for the prefix before the first failing insert, and it succeeds exactly when all rows are written; the video and question tables and the next video id are unchanged |
| Ingestion.AddVideo | src/controllers/addVideoController.ts:10-48 | a missing or empty URL gives 400 and a failed fetch or video insert gives 500, both with no write; otherwise the video row is appended first, then the chunk rows of the default chunking in order, the next video id advances by exactly one, and the status is 200 exactly when every chunk row was written, with no rollback |
| Ingestion.EmbeddingInputsAreWindows | src/controllers/addVideoController.ts:55-74 | the k-th text sent to the embedding model is the texts of the k-th window of the default chunking, joined by single spaces |
| Ingestion.RowsPairChunks | src/controllers/addVideoController.ts:88-95 | there is one row per default chunk, and row k carries the video id, chunk k's text, entry 12k's offset as its start and embedding k or [] |
| Retrieval.Filter | src/controllers/askQuestionController.ts:60-65 | the result holds only rows of the video above the threshold, and each such row exactly as often as the table does |
| Retrieval.InsertDesc | src/controllers/askQuestionController.ts:66 | inserting into a descending list keeps it descending and adds exactly the one row |
| Retrieval.SortDesc | src/controllers/askQuestionController.ts:66 | the result is sorted by descending similarity and is a permutation of the input |
| Retrieval.SelectSpec | src/controllers/askQuestionController.ts:57-67 | the selection is sorted descending, holds only qualifying rows, is a sub-multiset of them, and has min(limit, number qualifying) rows |
| Retrieval.SelectMembers | src/controllers/askQuestionController.ts:57-67 | every row returned is a qualifying row of the table; when no more rows qualify than the limit, every qualifying row is returned |
| Retrieval.SelectKeepsBest | src/controllers/askQuestionController.ts:66-67 | no qualifying row cut off by the limit is more similar than any row returned |
| Retrieval.SelectHeadIsBest | src/controllers/askQuestionController.ts:57-67 | the selection is empty exactly when the limit is 0 or nothing qualifies; otherwise its first row qualifies and is at least as similar as every qualifying row |
| Retrieval.SelectChunksBounds | src/controllers/askQuestionController.ts:57-67 | the selected chunks are of the video, above 0.5, descending, at most 20 |
| Retrieval.SelectPriorQABounds | src/controllers/askQuestionController.ts:79-93 | the selected earlier answers are of the video, above 0.6, descending, at most 3 |
| Retrieval.ThresholdIsStrict | src/controllers/askQuestionController.ts:62 | a chunk at exactly 0.5 is left out while one at 0.51 is kept |
| Retrieval.OrderedBySimilarity | src/controllers/askQuestionController.ts:66 | chunks at 0.6, 0.9 and 0.7 come back as 0.9, 0.7, 0.6 |
| Prompt.HistoryItems | src/controllers/askQuestionController.ts:99-101 | one "Question: q\nAnswer: a" item per selected exchange, in order |
| Prompt.HistoryBlock | src/controllers/askQuestionController.ts:97-103 | the history block is empty exactly when no earlier exchange was selected |
| Prompt.ContextAppend | src/controllers/askQuestionController.ts:71 | no chunk gives "", one chunk gives its text, and one more chunk appends a space and its text |
| Prompt.HistorySingle | src/controllers/askQuestionController.ts:97-103 | one exchange gives the header, its `Question:/Answer:` item and a blank line |
| Prompt.HistoryAppend | src/controllers/askQuestionController.ts:97-103 | each further exchange appends its item and a blank line, so the items appear in selection order separated by blank lines |
| Prompt.PromptLayout | src/controllers/askQuestionController.ts:106-113 | the trimmed prompt is the context line, the history block, the question and the instruction, with the inner indentation kept and the outer whitespace removed |
| Prompt.TimestampOfBestChunk | src/controllers/askQuestionController.ts:105 | the timestamp is 0 when no chunk qualifies, and otherwise the start of a qualifying chunk at least as similar as every qualifying chunk |
| Streaming.Received | src/controllers/askQuestionController.ts:124-135 | the chunks received are a prefix of the stream, and all of it when the stream does not throw |
| Streaming.NonEmptyTexts | src/controllers/askQuestionController.ts:130-132 | the kept texts are never empty and are no more than the fragments |
| Streaming.DataEvents | src/controllers/askQuestionController.ts:133 | one Data event per kept text, in order, carrying that text |
| Streaming.StreamAnswer | src/controllers/askQuestionController.ts:121-135 | the stream completes exactly when it does not throw; the answer is the concatenation of the non-empty texts received, and the events are one Data event for each of them |
| Streaming.NonEmptyAppend | src/controllers/askQuestionController.ts:129-135 | skipping absent and empty fragments distributes over splitting the stream in two |
| Streaming.AllNonEmptyKept | src/controllers/askQuestionController.ts:131-132 | a stream of present, non-empty fragments keeps every one of them, in order |
| Streaming.SkippedFragment | src/controllers/askQuestionController.ts:131 | an absent or empty fragment changes neither the answer nor the events |
| Streaming.EventsSpellAnswer | src/controllers/askQuestionController.ts:132-133 | the Data events carry exactly the texts appended to the answer, in order |
| Streaming.PartialAnswerIsPrefix | src/controllers/askQuestionController.ts:129-135 | the answer accumulated before a failure is a prefix of the whole stream's answer |
| Streaming.TwoAroundSkipped | src/controllers/askQuestionController.ts:130-132 | of two non-empty texts around an absent and an empty fragment, exactly the two texts are kept, in order |
| Streaming.HelloStream | src/controllers/askQuestionController.ts:129-135 | "Hel", a chunk without text, "" and "lo" give "Hello" and exactly two Data events |
| Streaming.FailAfterOne | src/controllers/askQuestionController.ts:129-154 | a stream throwing after one non-empty fragment has received just that fragment and one Data event |
| Ask.ValidateRequest | src/controllers/askQuestionController.ts:33-42 | the request is rejected with 400 exactly when the question is missing or empty, the videoId is falsy, or Number(videoId) is NaN; otherwise it carries the question and the number |
| Ask.VideoFor | src/controllers/askQuestionController.ts:43-48 | a video is found exactly when the number is finite and equals a row's id |
| Ask.ChunksFromTable | src/controllers/askQuestionController.ts:52-67 | every chunk the first query returns is a chunk row of the video whose embedding is more than 0.5 similar to the question, with that similarity, text and start time; when at most 20 rows qualify, every one of them is returned |
| Ask.PriorQAFromTable | src/controllers/askQuestionController.ts:74-93 | every exchange the second query returns is a question row of the video whose answer embedding is more than 0.6 similar to the question, with that similarity, question and answer; when at most 3 rows qualify, every one of them is returned |
| Ask.StreamAndStore | src/controllers/askQuestionController.ts:121-154 | the row (question, answer, video, timestamp, answer embedding) is appended and Done written exactly when the stream completes, the answer embedding succeeds and the insert does not throw; otherwise the Data events are followed by one Error and nothing is stored; the answer is embedded only after a completed stream |
| Ask.AskQuestion | src/controllers/askQuestionController.ts:29-159 | 400 and 404 come before any model request or write, and so does the 500 of an id PostgreSQL cannot read as an integer; a failed question embedding gives 500 with no write; otherwise the prompt built from the two selections is streamed, and the events, the model requests and the stored row are those of the streaming step |
| Ask.DigitsNumber | src/controllers/askQuestionController.ts:39 | a run of digits reads as its decimal value |
| Ask.NumberOfIdString | src/controllers/askQuestionController.ts:39-42 | for a natural n, the digits NatString(n) read back by Number give n; for the 32-bit ids the server hands out these are the digits `String(n)` writes, so such an id sent as a string passes validation with its own value |
| Ask.LettersAreNaN | src/controllers/askQuestionController.ts:39-41 | "abc" is NaN |
| Ask.DecimalFraction | src/controllers/askQuestionController.ts:39 | "2.5" reads as 2.5 and "." as NaN |
| Ask.ValidationCases | src/controllers/askQuestionController.ts:33-42 | a missing or empty question, a missing videoId, the number 0 and "abc" are each rejected with 400 |
| Ask.ZeroStringAccepted | src/controllers/askQuestionController.ts:33-42 | the string "0" is truthy and numeric, so it passes validation as 0 |
| Ask.UnmatchedIds | src/controllers/askQuestionController.ts:43-48 | when ids are at least 1, a whole number from -2^31 up to 0 is accepted as an integer parameter and names no video, so the request ends with 404 (below -2^31 it ends with 500, see `Ask.RejectedIds`) |
| Ask.RejectedIds | src/controllers/askQuestionController.ts:43-45 | a fractional, infinite or out-of-range id is not an integer parameter, so the query throws and the request ends with 500; 0 and 2147483647 are accepted, 2.5 and 2147483648 are not |
| Ask.TerminalEvent | src/controllers/askQuestionController.ts:148-153 | the stream ends in exactly one Done or Error after the Data events; Done is there exactly when the answer was stored, Error exactly when it was not; and the Data events spell the answer's texts |

## Left out

- The YouTube metadata fetch, the transcript fetch, the Gemini embedding and generation calls, and the database's cosine distance are external. They are parameters of the model, taken to be deterministic functions.
- Floating-point numbers are modelled as reals. Rounding in offsets, durations and similarities is not modelled.
- Ask.AskQuestion: its contract holds for one order among rows of equal similarity, the one `Retrieval.SortDesc` fixes (earlier rows first); the database may order ties differently. Under another order, which tied rows survive `LIMIT 20` and `LIMIT 3`, the prompt text, and the stored `mostRelevantTimestamp` may differ. `Retrieval.SelectSpec`, `Retrieval.SelectKeepsBest`, `Retrieval.SelectHeadIsBest`, `Retrieval.SelectMembers` and `Prompt.TimestampOfBestChunk` state only what holds for every tie order.
- Failures of database reads (the lookup and the two queries) are not modelled. Those would end in the 500 of the outer `catch`.
- A request whose `question` or `url` is truthy but not a string is not modelled. JSON arrays and objects as `videoId` are not modelled either.
- `Ask.StringToNumber` reads exponent notation and `0x`, `0o` and `0b` literals as NaN. JavaScript's `Number` reads them as numbers.
- `Store.FindIn` compares the id with the number exactly. `Ask.AskQuestion` calls it only for whole numbers in the 32-bit range (`Ask.IntegerParameter`); other numbers make PostgreSQL reject the query, which the model answers with 500.
- Ingestion.AddVideo: a failed video insert leaves `nextVideoId` unchanged. PostgreSQL's `generatedAlwaysAsIdentity` sequence uses up a value even when the insert fails (for example on the NOT NULL violation for an undefined id), so in the source the next video may get a higher id than the model's. The model still hands out fresh, increasing ids.
- Store.Database.InsertVideo: ids are unbounded integers. The `integer` identity column stops at 2147483647.
- Chunking.ChunkTranscript: requires `overlap < elementsPerChunk`. The source does not loop forever for every other pair: it does for positive and equal values with a non-empty transcript (with both 0 the empty first slice hits the `break`), and for `overlap > elementsPerChunk` it takes windows counted from the end of the transcript until one is empty and the `break` ends the loop. The only call uses 15 and 3.
- `varchar(255)` length limits, `createdAt` and `askedAt` timestamps, the `created_at` default, JSON response bodies, SSE framing and headers, and `console` logging are not modelled.
- Inserts are modelled as completing or throwing. A throwing insert writes nothing, and the database's own concurrency is not modelled.
- `src/index.ts` (Express bootstrap and the WebSocket handler), `src/routes/*.ts`, and the list, get and conversation controllers are not part of this model. They are transport wiring or plain passthrough reads.
