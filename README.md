# A verified model of the retrieval core of a document question-answering backend

The backend answers questions about an uploaded PDF or text document. It does this with AWS Bedrock:
Titan embeddings find the passages that bear on a question, and the Titan text model (or Claude, when
Titan gives nothing) writes the answer. This project models, in Dafny, the parts of the backend that
decide what happens, and proves what they promise:

- `be/rag_bedrock.py`, class `BedrockRAG`:
  - the sentence chunker `_split_text`;
  - the cleaning and empty-text guard of `get_titan_embedding`;
  - the guard cases of `cosine_similarity`;
  - `create_vector_store`, `similarity_search` and `fallback_search`;
  - the composition of the answer in `answer_question`.
- `be/handler.py`, the Lambda handlers:
  - `validate_file`;
  - the index that `upload` builds from the chunks;
  - `ask`: its question checks, its own inline ranking of the stored texts, its prompt, and its answer
    fallbacks and replies.

Modules, one file each:

| file | module | contents |
|---|---|---|
| `wrappers.dfy` | `Wrappers` | `Option` and `Result` |
| `text.dfy` | `Text` | The Python string operations the code relies on: `strip`, `lower`, `replace(c, '')`, non-overlapping `count`, `in`, `sep.join`, and the decimal rendering of an `int`. |
| `chunker.dfy` | `Chunker` | `re.split(r'[.!?]+')`, sentence stripping, and the greedy packing that adds a sentence to the running chunk while the chunk plus the sentence stays below 800 characters. |
| `ranking.dfy` | `Ranking` | Python's stable `sort(key=score, reverse=True)` as an insertion sort, together with the order it must produce (score descending, ties by position); top-`k`; and the score floor of `rag_bedrock.py`. |
| `rag.dfy` | `Rag` | `rag_bedrock.py` |
| `handler.dfy` | `Handler` | `handler.py` |

The Bedrock runtime is the value `Rag.Bedrock`, made of three functions:
- `embed`: text to an optional vector;
- `titan`: prompt to an optional answer;
- `claude`: prompt to an optional answer.

A `None` stands for a failed call: the code catches the exception and returns `None`.

The floating-point value of a cosine is a parameter `angle`. Only the guard cases that return -1 are
computed. Scores are `real`s, and keyword counts are cast to `real`.

Everything DynamoDB and S3 hand to `ask` is a parameter:
- the session item, whose `filename` and `s3_key` may be missing;
- the stored `texts` and `embeddings`, which may be missing.

The loops of the source are methods, each proved equal to a specification function:
- `Chunker.SplitText` (the loop of `_split_text`)
- `Rag.CreateVectorStore`
- `Rag.FallbackSearch`
- `Rag.SimilaritySearch` (the loop over the stored embeddings)
- `Rag.TakeRelevant` (the selection loop shared by both searches)
- `Handler.BuildIndex`
- `Handler.RankForAsk`

Two straight-line methods call those loops:
- `Rag.AnswerQuestion`, proved equal to the function `Rag.Answer`;
- `Handler.Ask`, proved equal to the function `Handler.AskReply`.

The lemmas state the properties of the specification functions.

Two behaviours of the code are worth stating outright:
- `ask` takes the embedding path when the query has an embedding and the stored `embeddings` list is
  non-empty (be/handler.py:236-251). It does so even when every stored embedding is the failure
  marker `[]`. Every score is then -1, and `Handler.AllEmbeddingsFailed` proves that the top indices
  are the first `min(3, len(embeddings))` in stored order. With a text for each embedding, the texts
  at those positions are the ones used.
- A failed embedding is stored as a marker, not left out. In `rag_bedrock.py` the marker is a zero
  vector of length 1536; in `handler.py` it is `[]`. Both cosines score a marker -1
  (`Handler.FailureMarkersScoreMinusOne`).

## Model

| member | source | states |
|---|---|---|
| Text.Strip | be/rag_bedrock.py:119 | The stripped string is no longer than the input, has no whitespace at either end, has only characters of the input, and is empty exactly when the input is all whitespace. |
| Text.StripSlice | be/rag_bedrock.py:119 | The stripped string is a slice `s[i:j]` of the input, and everything before `i` and from `j` on is whitespace. |
| Text.StripAround | be/rag_bedrock.py:119 | Any whitespace around a non-blank string with no whitespace at its ends is exactly what `strip` removes. |
| Text.RemoveCharAppend | be/rag_bedrock.py:18 | `replace(c, '')` works piece by piece: on `a + b` it gives the result on `a` followed by the result on `b`. |
| Text.RemoveCharOne | be/rag_bedrock.py:18 | On one character, `replace(c, '')` deletes it when it is `c` and keeps it otherwise. |
| Text.CountOccurrences | be/rag_bedrock.py:210 | For a non-empty needle, the count times the needle's length is at most the text's length: occurrences do not overlap. |
| Text.CountExamples | be/rag_bedrock.py:210 | `"aaa".count("aa")` is 1, `"abab".count("ab")` is 2 and `"ab".count("")` is 3. |
| Text.StripIdempotent | be/handler.py:197 | Stripping twice is stripping once. |
| Text.CountPositiveIffContains | be/rag_bedrock.py:210 | `t.count(q) > 0` exactly when `q in t`. This links the keyword score to containment. |
| Text.JoinWithContains | be/rag_bedrock.py:233-236 | Every element of a `sep.join` occurs in the joined string. |
| Text.NatToStringRoundTrip | be/rag_bedrock.py:234 | Reading back the decimal rendering of `i+1` gives the number. |
| Text.NatToStringInjective | be/rag_bedrock.py:234 | Different entry numbers render differently. |
| Chunker.SplitKeepsText | be/rag_bedrock.py:114 | The pieces of `re.split(r'[.!?]+', t)` have no terminator in them, and put back together they are `t` with its terminators removed. |
| Chunker.SplitNoTerminator | be/rag_bedrock.py:114 | A text with no `.`, `!` or `?` splits into itself alone. |
| Chunker.SplitAtRun | be/rag_bedrock.py:114 | A maximal run of terminators after a terminator-free text makes the cut: the text before the run is the first piece, and splitting goes on after the run. |
| Chunker.SplitExample | be/rag_bedrock.py:114 | `"Hi. Yes"` splits into `"Hi"` and `" Yes"`. |
| Chunker.SentencesExample | be/rag_bedrock.py:114-121 | The sentences of `"Hi. Yes"` are `"Hi"` and `"Yes"`. |
| Chunker.RenderTrimmed | be/rag_bedrock.py:124-131 | A flushed chunk is not empty, has no surrounding whitespace and ends with `.`. |
| Chunker.FlushedChunk | be/rag_bedrock.py:124-131 | `current_chunk.strip()` of a group is the group's sentences, each followed by `.`, separated by single spaces. |
| Chunker.PackConcat | be/rag_bedrock.py:118-131 | The packing loses, duplicates and reorders no sentence: the groups put together are the sentences. |
| Chunker.PackShape | be/rag_bedrock.py:123-128 | Every group is non-empty, and a group of two or more sentences renders within `chunk_size + 1` characters before the strip. |
| Chunker.PackIsGreedy | be/rag_bedrock.py:123-128 | A new chunk is started only when the next sentence does not fit: the open chunk's length plus the sentence's is at least `chunk_size`. |
| Chunker.ChunksWellFormed | be/rag_bedrock.py:114-131 | No chunk is empty, every chunk is stripped, and every chunk ends with `.`. |
| Chunker.ChunksPreserveSentences | be/rag_bedrock.py:114-131 | Joining the chunks with single spaces gives the same text as joining the stripped non-blank sentences, each with `.` appended, with single spaces. |
| Chunker.MultiSentenceChunkBound | be/rag_bedrock.py:123-128 | A chunk built from two or more sentences is at most 800 characters long. |
| Chunker.LongSentenceOwnChunk | be/rag_bedrock.py:123-128 | A sentence of 800 characters or more becomes a chunk of its own, untruncated, with `.` appended. |
| Chunker.NoSentenceNoChunk | be/rag_bedrock.py:118-131 | There are no chunks exactly when the text has no non-blank sentence. |
| Chunker.BlankExamples | be/rag_bedrock.py:114-131 | `""` and `"..!?"` give no chunk. |
| Chunker.SplitText | be/rag_bedrock.py:111-133 | The loop of `_split_text` returns exactly the chunk texts of the specification, in order. |
| Ranking.InsertRanked | be/rag_bedrock.py:192 | One insertion step keeps the list ranked, and adds exactly one new index. |
| Ranking.RankOrderIsRanking | be/rag_bedrock.py:192 | The sort lists every index exactly once, by score descending, with ties in index order: Python's stable `sort(reverse=True)`. |
| Ranking.RankingUnique | be/handler.py:250-258 | Exactly one list has that property, so any stable descending sort, `sorted` included, gives `RankOrder`. |
| Ranking.TiesKeepIndexOrder | be/rag_bedrock.py:192 | Scores `[0, 2, 2]` sort to `[1, 2, 0]`. |
| Ranking.TopIsBest | be/rag_bedrock.py:196 | An index missing from the first `k` of the ranking exists only when there are more than `k` scores, and every index that is kept ranks before it. |
| Ranking.KeepRelevantMembers | be/rag_bedrock.py:196-198 | An index is kept exactly when it is among the first `k` and has a stored chunk and a positive score. |
| Ranking.KeepRelevantRanked | be/rag_bedrock.py:196-198 | Filtering keeps the ranking order. |
| Ranking.SelectRelevantSpec | be/rag_bedrock.py:192-198 | At most `k` indices are selected. All are relevant, and they come in ranking order. A relevant index is left out only when `k` indices rank before it. |
| Ranking.NothingPositiveNothingSelected | be/rag_bedrock.py:197 | When no score is positive, nothing is selected. |
| Rag.CleanText | be/rag_bedrock.py:18 | The text sent to the embedding model has no NUL character and no surrounding whitespace. It is empty exactly when the text without its NULs is all whitespace. |
| Rag.CleanTextIgnoresNul | be/rag_bedrock.py:18 | A NUL character anywhere in the text makes no difference to the cleaned text. |
| Rag.CleanTextIdempotent | be/rag_bedrock.py:18 | Cleaning twice is cleaning once. |
| Rag.BlankTextNoEmbedding | be/rag_bedrock.py:18-20 | A text that is blank once cleaned gets `None`, whatever the model would answer: no request is made. |
| Rag.EmbeddingSeesCleanText | be/rag_bedrock.py:14-32 | The embedding of a text depends only on its cleaned form. |
| Rag.RagCosine | be/rag_bedrock.py:135-148 | The cosine is -1 for an empty vector, vectors of different lengths, or a zero norm. |
| Rag.RagCosineSymmetric | be/rag_bedrock.py:135-148 | The guards are symmetric. Outside them, the value is the cosine of the two vectors. |
| Rag.ZeroVectorScoresMinusOne | be/rag_bedrock.py:145-169 | The 1536-long zero vector that marks a failed embedding scores -1 against any query. |
| Rag.StoredEmbeddingShape | be/rag_bedrock.py:164-169 | A stored embedding is never empty. It is the service's vector when that is present and non-empty, and the 1536-long zero vector otherwise. |
| Rag.CreateVectorStore | be/rag_bedrock.py:153-175 | The store keeps the chunks, has one text and one embedding per chunk, and position `i` holds chunk `i`'s content and embedding. |
| Rag.KeywordScore | be/rag_bedrock.py:206-211 | A text's score is positive exactly when its lower-cased form contains the lower-cased query. For a non-empty query, the score is at most the text's length divided by the query's length. |
| Rag.FallbackHitsSpec | be/rag_bedrock.py:203-220 | At most `k` hits. Each is a text that contains the lower-cased query, and they come by count descending, ties by position. A matching text is left out only when `k` texts rank before it. |
| Rag.FallbackNoMatch | be/rag_bedrock.py:216-220 | When no text contains the query, the result is empty. |
| Rag.TakeRelevant | be/rag_bedrock.py:195-198 | The selection loop returns the chunks of the selected indices, in order. |
| Rag.FallbackSearch | be/rag_bedrock.py:203-220 | The keyword loop and its selection return the chunks of `FallbackHits`. |
| Rag.SimilarityHits | be/rag_bedrock.py:177-201 | Every hit indexes a stored chunk. |
| Rag.SimilarityHitsSpec | be/rag_bedrock.py:180-198 | Without a usable query embedding the result is the keyword search. Otherwise there are at most `k` hits, each with a stored chunk and a positive cosine, by cosine descending; a stored chunk with a positive cosine is left out only when `k` chunks rank before it. |
| Rag.BlankQueryFallsBack | be/rag_bedrock.py:180-183 | A query that is blank once cleaned goes to the keyword search. |
| Rag.FailedEmbeddingNeverFound | be/rag_bedrock.py:187-198 | A chunk whose embedding failed is never returned by the similarity path. |
| Rag.SimilaritySearch | be/rag_bedrock.py:177-201 | The method returns the chunks of `SimilarityHits`. |
| Rag.ContextEntryInjective | be/rag_bedrock.py:233-236 | The number of an entry can be read back from it: two entries are equal only when their numbers are. |
| Rag.ContextEntriesDistinct | be/rag_bedrock.py:233-236 | No two context entries are alike, even for equal chunks. |
| Rag.PromptGrounded | be/rag_bedrock.py:233-255 | The prompt contains every numbered context entry and the question. |
| Rag.ClaudeOnlyAfterTitan | be/rag_bedrock.py:260-262 | When Titan answers, Claude's reply cannot change the result. |
| Rag.ClaudeAfterTitanFails | be/rag_bedrock.py:261-262 | When Titan gives nothing, the result is Claude's. |
| Rag.CleanAnswer | be/rag_bedrock.py:268-270 | The cleaned answer is no longer than the raw one. |
| Rag.CleanAnswerWithin | be/rag_bedrock.py:268-270 | The cleaned answer occurs in the raw one. |
| Rag.CleanAnswerUnquotes | be/rag_bedrock.py:269-270 | An answer enclosed in one pair of quotes comes back without them and without any other change. |
| Rag.CleanAnswerUnquoted | be/rag_bedrock.py:268-269 | An answer that is not quoted is only stripped. |
| Rag.CleanAnswerOnePair | be/rag_bedrock.py:269-270 | Only one pair of quotes is removed. |
| Rag.CleanAnswerLoneQuote | be/rag_bedrock.py:268-270 | A lone quote, with any whitespace around it, becomes the empty answer (`'"'[1:-1]`). |
| Rag.CleanAnswerQuotedAround | be/rag_bedrock.py:268-270 | Whitespace around a quoted answer is removed, then the quotes are removed, whatever is between them. |
| Rag.CleanAnswerPlainAround | be/rag_bedrock.py:268-270 | Whitespace around an answer that is not enclosed in quotes is removed, and nothing else is changed. |
| Rag.NothingRelevantNoGeneration | be/rag_bedrock.py:229-230 | With no relevant chunk the answer is the fixed "not found" message, whatever the generators would say. |
| Rag.BothFailApology | be/rag_bedrock.py:264-265 | When both generators give nothing, the answer is the apology. |
| Rag.TitanAnswerUsed | be/rag_bedrock.py:260-270 | When Titan answers, the answer is Titan's cleaned answer, whatever Claude would say. |
| Rag.AnswerQuestion | be/rag_bedrock.py:222-272 | The method computes the composition of the answer over the top-3 similarity search. |
| Handler.LastIndexOf | be/handler.py:36 | `rfind`: the index holds the character and nothing after it does, or the result is -1. |
| Handler.Extension | be/handler.py:36 | `splitext(...)[1]` is empty, or it starts with a dot and holds no other dot and no slash. |
| Handler.ExtensionOfName | be/handler.py:36 | A name with a non-dot stem and a suffix after a dot has `.suffix` as its extension. |
| Handler.ExtensionIsSuffix | be/handler.py:36 | The extension is a suffix of the path, and a path without a dot has no extension. |
| Handler.AcceptedNameSuffix | be/handler.py:36-37 | An accepted file name ends in `.pdf` or `.txt` once lower-cased. |
| Handler.HiddenNameNoExtension | be/handler.py:36 | `.pdf` has no extension, and `test.exe` has `.exe`. |
| Handler.ValidateFileSpec | be/handler.py:26-45 | A file is accepted exactly when its type is allowed, its lower-cased extension is `.pdf` or `.txt`, and it is not too large. The checks run type first, then extension, and success returns `True`. |
| Handler.SizeBoundary | be/handler.py:41-42 | Exactly 10 MiB passes and one byte more fails. A missing or zero size is not checked. |
| Handler.ExecutableRejected | be/test_handler.py:40-52 | `test.exe` is refused for its type when sent as `application/x-msdownload`, and for its extension when sent as `text/plain`. |
| Handler.UpperCaseExtensionAccepted | be/handler.py:36-37 | `REPORT.PDF` is accepted: the extension is compared in lower case. |
| Handler.ValidateQuestion | be/handler.py:197-206 | An accepted question is non-empty, stripped and at most 1000 characters long. |
| Handler.ValidateQuestionSpec | be/handler.py:197-206 | A question passes exactly when, once stripped, it is non-empty and at most 1000 characters long. Each failure gives its own message, and the stripped question is what is used. |
| Handler.MissingQuestionEmpty | be/handler.py:197-202 | A missing question is refused as empty. |
| Handler.QuestionLengthBoundary | be/handler.py:204-206 | 1000 characters pass and 1001 do not. Surrounding whitespace does not count. |
| Handler.IndexFor | be/handler.py:87-110 | No chunks gives the processing error. Otherwise the index records the filename and the count, one text and one embedding per chunk, position by position, with `[]` for a failed embedding. |
| Handler.BuildIndex | be/handler.py:87-98 | The loop builds exactly `IndexFor`. |
| Handler.BlankDocumentRefused | be/handler.py:85-89 | A document is refused exactly when its text has no sentence. |
| Handler.HandlerCosine | be/handler.py:239-247 | The inline cosine is -1 for an empty vector or a zero norm. |
| Handler.FailureMarkersScoreMinusOne | be/handler.py:239-247 | The `[]` marker scores -1 under the inline cosine. The zero-vector marker scores -1 under both cosines. |
| Handler.LengthGuardDiffers | be/handler.py:239-247 | Vectors of different lengths get -1 from `rag_bedrock.py` but a value from the inline cosine, which has no length guard. |
| Handler.AskScores | be/handler.py:233-257 | Without a usable query embedding or with no stored embeddings, the scores are keyword counts. Otherwise score `i` is the inline cosine of the query embedding and stored embedding `i`. |
| Handler.AskRankedSpec | be/handler.py:249-259 | With no more embeddings than texts, the ranking has exactly `min(3, number of scores)` texts, in ranking order. An unranked index is left out only because three rank before it, with no score floor. |
| Handler.AskRankedCount | be/handler.py:249-259 | With one embedding per text, exactly `min(3, len(texts))` texts are ranked. |
| Handler.EqualScoresKeepOrder | be/handler.py:250 | When all scores are equal, whatever their value, the sort leaves the indices in order. |
| Handler.AllEmbeddingsFailed | be/handler.py:236-259 | When every stored embedding failed, the embedding path is still taken, and the top indices are the first `min(3, len(embeddings))` in stored order. With no more embeddings than texts, the ranked texts are exactly the first `min(3, len(embeddings))` texts. |
| Handler.NoScoreFloor | be/handler.py:253-259 | `ask` ranks three texts even when none matches. With no match, the keyword search of `rag_bedrock.py` returns nothing. |
| Handler.RankForAsk | be/handler.py:233-259 | The ranking step, with its keyword loop, returns `AskRanked`, including the `IndexError` when an embedding has no text. |
| Handler.AskPromptGrounded | be/handler.py:262-263 | The prompt contains every ranked text and the question. |
| Handler.AnswerOr | be/handler.py:265-287 | The answer is the sentinel, or the non-empty answer of the generators. |
| Handler.TitanAnswerVerbatim | be/handler.py:265-268 | A Titan answer is used as it is, whatever Claude would say. |
| Handler.SentinelWhenBothFail | be/handler.py:265-272 | The sentinel is returned exactly when both generators give nothing, or when a generator returns the sentinel text itself. |
| Handler.AskChecksQuestionFirst | be/handler.py:197-206 | A bad question gets its error, with status 500, whatever the session. |
| Handler.AskGeneral | be/handler.py:277-290 | Without a session id the question itself is the prompt, no document is used, and the status is 200. |
| Handler.AskDocument | be/handler.py:208-276 | With a session whose index has one embedding per text, the reply uses the document and the session's filename, and it answers from a prompt holding `min(3, len(texts))` texts. |
| Handler.Ask | be/handler.py:189-297 | The method computes the reply of `ask` from the parsed body on, including the session and index errors. |

## Left out

- I/O and services are not modelled:
  - S3 (`head_object`, `download_file`, `put_object`, presigned URLs);
  - DynamoDB (`get_item`, `put_item`);
  - temporary files;
  - HTTP events and response headers;
  - JSON encoding and decoding, including the `JSONDecodeError` reply;
  - logging and `print`, `uuid` and the timestamps.
  What `ask` reads from storage is a parameter. The status code and the body fields of a reply are kept.
- The Bedrock request and response handling inside `invoke_titan`, `invoke_claude` and `get_titan_embedding` is not modelled. Each model is a function that returns an optional value.
- PDF extraction with pypdf and file reading in `load_and_split_document` are not modelled. The chunker starts from the extracted text.
- Floating-point cosine arithmetic (`sqrt`, division, rounding, and `zip` truncation when lengths differ) is not modelled. A cosine that passes its guards is the `angle` parameter, and a zero norm is taken to mean an all-zero vector.
- Python's Unicode `lower()` and `strip()` are not modelled. Case folding is ASCII only, and whitespace is the ASCII set `str.isspace` accepts.
- `chunk_overlap` (be/rag_bedrock.py:12) is unused by the code, and it is not modelled.
- `presign` and the plumbing of `upload` are not modelled: S3 metadata, the HTTP replies `upload` builds from a `ValueError`, the session record.
- Two kinds of exception raised by the core are modelled as `Failure` results: the `ValueError`s of `validate_file` and `ask`'s `IndexError` when an embedding has no text. The other exceptions the core can raise are listed on their own lines here. Failing service calls are `None` results.
- Rag.FallbackSearch, Rag.SimilarityHits, Rag.SimilaritySearch and Rag.AnswerQuestion: require a store with no more texts than chunks. A store from `create_vector_store` always meets this. For any other store, `fallback_search` can fail with an `IndexError`, and that failure is not modelled.
- The sorts are modelled as a function returning the sorted indices (`Ranking.RankOrder`). The in-place `list.sort` of the source is not modelled as an in-place operation.
- Handler.ValidateQuestion: the question is a string or missing. A `question` that is present but not a string, such as JSON `null` or a number, makes `.strip()` raise (be/handler.py:197). That gives the 500 reply `Ask failed: ...`, which is not modelled.
- `k` is a natural number. Negative slice bounds (`similarities[:k]` with `k < 0`) are not modelled; the code only passes 3.
