/**
 * `BedrockRAG` of `rag_bedrock.py`: the embedding call with its text
 * cleaning, the cosine guards, the vector store, the two searches and the
 * composition of the answer.
 *
 * The Bedrock runtime is the value `Bedrock`, three total functions that
 * return `None` whenever the request fails or raises; the floating-point
 * cosine of two vectors that pass the guards is the parameter `angle`.
 */
module Rag {
  import opened Wrappers
  import opened Text
  import opened Chunker
  import opened Ranking

  type Vec = seq<real>

  /**
   * The Bedrock runtime: the Titan embedding model (`amazon.titan-embed-text-v1`),
   * the Titan text model (`invoke_titan`) and Claude (`invoke_claude`).
   */
  datatype Bedrock = Bedrock(
    embed: string -> Option<Vec>,
    titan: string -> Option<string>,
    claude: string -> Option<string>)

  /** The store `create_vector_store` returns: `chunks`, `texts` and `embeddings`. */
  datatype VectorStore = VectorStore(chunks: seq<Chunk>, texts: seq<string>, embeddings: seq<Vec>)

  /** The length of a Titan embedding, used for the zero vector that marks a failed one. */
  const EmbeddingSize: nat := 1536

  /** The `k` of `answer_question`. */
  const TopK: nat := 3

  const NotFoundMessage: string := "Không tìm thấy thông tin liên quan trong tài liệu. Vui lòng thử câu hỏi khác hoặc tải lên tài liệu phù hợp hơn."

  const ApologyMessage: string := "Xin lỗi, tôi không thể tạo câu trả lời ngay lúc này. Vui lòng thử lại sau."

  // ---------------------------------------------------------------------------
  // Embeddings

  /** The text sent to the embedding model: NUL characters removed, then stripped. */
  function CleanText(text: string): (c: string)
    ensures '\0' !in c && Trimmed(c)
    ensures c == [] <==> AllSpace(RemoveChar(text, '\0'))
  {
    Strip(RemoveChar(text, '\0'))
  }

  /** A NUL character anywhere in the text makes no difference to the cleaned text. */
  lemma CleanTextIgnoresNul(a: string, b: string)
    ensures CleanText(a + "\0" + b) == CleanText(a + b)
  {
    var x := a + "\0";
    calc {
      RemoveChar(x + b, '\0');
      { RemoveCharAppend(x, b, '\0'); }
      RemoveChar(x, '\0') + RemoveChar(b, '\0');
      { RemoveCharAppend(a, "\0", '\0'); RemoveCharOne('\0', '\0'); }
      RemoveChar(a, '\0') + RemoveChar(b, '\0');
      { RemoveCharAppend(a, b, '\0'); }
      RemoveChar(a + b, '\0');
    }
  }

  /** Cleaning twice is cleaning once. */
  lemma CleanTextIdempotent(text: string)
    ensures CleanText(CleanText(text)) == CleanText(text)
  {
    var c := CleanText(text);
    RemoveCharAbsent(c, '\0');
    StripTrimmed(c);
  }

  /** `get_titan_embedding(text)`: no request for a text that is blank once cleaned. */
  function GetTitanEmbedding(b: Bedrock, text: string): Option<Vec> {
    var c := CleanText(text);
    if c == [] then None else b.embed(c)
  }

  /**
   * A blank text (after removing NULs and surrounding whitespace) gets no
   * embedding whatever the service would answer: no request is made.
   */
  lemma BlankTextNoEmbedding(b1: Bedrock, b2: Bedrock, text: string)
    requires CleanText(text) == []
    ensures GetTitanEmbedding(b1, text) == None
    ensures GetTitanEmbedding(b1, text) == GetTitanEmbedding(b2, text)
  {
  }

  /** The embedding of a text is the embedding of its cleaned form, and only the cleaned form is sent. */
  lemma EmbeddingSeesCleanText(b1: Bedrock, b2: Bedrock, text: string)
    requires b1.embed(CleanText(text)) == b2.embed(CleanText(text))
    ensures GetTitanEmbedding(b1, CleanText(text)) == GetTitanEmbedding(b1, text)
    ensures GetTitanEmbedding(b1, text) == GetTitanEmbedding(b2, text)
  {
    CleanTextIdempotent(text);
  }

  /** The truth value of an embedding in `if embedding:` — present and not empty. */
  predicate Usable(e: Option<Vec>) {
    e.Some? && e.value != []
  }

  // ---------------------------------------------------------------------------
  // Cosine similarity

  /** `math.sqrt(sum(x * x for x in v)) == 0`: every component is zero. */
  predicate ZeroNorm(v: Vec) {
    forall i :: 0 <= i < |v| ==> v[i] == 0.0
  }

  /** The vectors `cosine_similarity` turns away with -1. */
  predicate CosineGuarded(a: Vec, b: Vec) {
    a == [] || b == [] || |a| != |b| || ZeroNorm(a) || ZeroNorm(b)
  }

  /** `cosine_similarity(a, b)`, with `angle` standing for `dot / (norm_a * norm_b)`. */
  function RagCosine(angle: (Vec, Vec) -> real, a: Vec, b: Vec): (r: real)
    ensures CosineGuarded(a, b) ==> r == -1.0
  {
    if a == [] || b == [] || |a| != |b| then -1.0
    else if ZeroNorm(a) || ZeroNorm(b) then -1.0
    else angle(a, b)
  }

  /** The guards do not depend on the order of the arguments, and past them only the angle counts. */
  lemma RagCosineSymmetric(angle: (Vec, Vec) -> real, a: Vec, b: Vec)
    requires angle(a, b) == angle(b, a)
    ensures RagCosine(angle, a, b) == RagCosine(angle, b, a)
    ensures !CosineGuarded(a, b) ==> RagCosine(angle, a, b) == angle(a, b)
  {
  }

  function Zeros(n: nat): (v: Vec)
    ensures |v| == n && ZeroNorm(v)
  {
    seq(n, i => 0.0)
  }

  /** The zero vector that marks a failed embedding scores -1 against every query. */
  lemma ZeroVectorScoresMinusOne(angle: (Vec, Vec) -> real, q: Vec)
    ensures RagCosine(angle, q, Zeros(EmbeddingSize)) == -1.0
  {
  }

  // ---------------------------------------------------------------------------
  // The vector store

  /** The embedding `create_vector_store` keeps for a text: the service's, or zeros when it gave none. */
  function StoredEmbedding(b: Bedrock, text: string): Vec {
    var e := GetTitanEmbedding(b, text);
    if Usable(e) then e.value else Zeros(EmbeddingSize)
  }

  /** A stored embedding is never empty, and it is all zeros exactly when it marks a failure or the service gave zeros. */
  lemma StoredEmbeddingShape(b: Bedrock, text: string)
    ensures StoredEmbedding(b, text) != []
    ensures !Usable(GetTitanEmbedding(b, text)) ==> StoredEmbedding(b, text) == Zeros(EmbeddingSize)
    ensures Usable(GetTitanEmbedding(b, text)) ==> StoredEmbedding(b, text) == GetTitanEmbedding(b, text).value
  {
  }

  /** `texts[i]` is the content of `chunks[i]`, and there is one embedding per chunk. */
  predicate Aligned(vs: VectorStore) {
    && |vs.texts| == |vs.chunks|
    && |vs.embeddings| == |vs.chunks|
    && (forall i :: 0 <= i < |vs.chunks| ==> vs.texts[i] == vs.chunks[i].pageContent)
  }

  /** `create_vector_store(chunks)`. */
  method CreateVectorStore(b: Bedrock, chunks: seq<Chunk>) returns (vs: VectorStore)
    ensures vs.chunks == chunks
    ensures Aligned(vs)
    ensures forall i :: 0 <= i < |chunks| ==> vs.embeddings[i] == StoredEmbedding(b, chunks[i].pageContent)
  {
    var texts := seq(|chunks|, i requires 0 <= i < |chunks| => chunks[i].pageContent);
    var embeddings: seq<Vec> := [];
    for i := 0 to |texts|
      invariant |embeddings| == i
      invariant forall j :: 0 <= j < i ==> embeddings[j] == StoredEmbedding(b, texts[j])
    {
      var embedding := GetTitanEmbedding(b, texts[i]);
      var kept: Vec;
      if embedding.Some? && embedding.value != [] {
        kept := embedding.value;
      } else {
        kept := Zeros(EmbeddingSize);
      }
      assert kept == StoredEmbedding(b, texts[i]);
      embeddings := embeddings + [kept];
    }
    vs := VectorStore(chunks, texts, embeddings);
  }

  // ---------------------------------------------------------------------------
  // Searches

  /** The chunks at the given indices, in that order. */
  function ChunksAt(chunks: seq<Chunk>, idx: seq<nat>): (r: seq<Chunk>)
    requires forall j :: 0 <= j < |idx| ==> idx[j] < |chunks|
    ensures |r| == |idx|
    ensures forall j :: 0 <= j < |idx| ==> r[j] == chunks[idx[j]]
  {
    seq(|idx|, j requires 0 <= j < |idx| => chunks[idx[j]])
  }

  /** The keyword score of one text: `text.lower().count(query.lower())`. */
  function KeywordScore(text: string, query: string): (n: nat)
    ensures n > 0 <==> Contains(Lower(text), Lower(query))
    ensures query != [] ==> n * |query| <= |text|
  {
    CountPositiveIffContains(Lower(text), Lower(query));
    CountOccurrences(Lower(text), Lower(query))
  }

  function KeywordScores(texts: seq<string>, query: string): (s: seq<real>)
    ensures |s| == |texts|
    ensures forall i :: 0 <= i < |texts| ==> s[i] == KeywordScore(texts[i], query) as real
  {
    seq(|texts|, i requires 0 <= i < |texts| => KeywordScore(texts[i], query) as real)
  }

  /** The indices `fallback_search` returns the chunks of. */
  function FallbackHits(texts: seq<string>, query: string, k: nat): seq<nat> {
    SelectRelevant(KeywordScores(texts, query), k, |texts|)
  }

  /**
   * `fallback_search` returns at most `k` chunks; each of their texts contains
   * the lower-cased query; they come by count descending, ties by position;
   * a matching text is left out only when `k` texts rank before it.
   */
  lemma FallbackHitsSpec(texts: seq<string>, query: string, k: nat)
    ensures |FallbackHits(texts, query, k)| <= k
    ensures forall i :: i in FallbackHits(texts, query, k) ==>
      i < |texts| && Contains(Lower(texts[i]), Lower(query))
    ensures StrictlyRanked(KeywordScores(texts, query), FallbackHits(texts, query, k))
    ensures forall x :: 0 <= x < |texts| && Contains(Lower(texts[x]), Lower(query)) && x !in FallbackHits(texts, query, k) ==>
      k < |texts| && forall y :: y in Top(RankOrder(KeywordScores(texts, query)), k) ==> Before(KeywordScores(texts, query), y, x)
  {
    var s := KeywordScores(texts, query);
    SelectRelevantSpec(s, k, |texts|);
    forall i | 0 <= i < |texts| ensures s[i] > 0.0 <==> Contains(Lower(texts[i]), Lower(query)) {
      CountPositiveIffContains(Lower(texts[i]), Lower(query));
    }
  }

  /** No text contains the query: nothing is returned. */
  lemma FallbackNoMatch(texts: seq<string>, query: string, k: nat)
    requires forall i :: 0 <= i < |texts| ==> !Contains(Lower(texts[i]), Lower(query))
    ensures FallbackHits(texts, query, k) == []
  {
    var s := KeywordScores(texts, query);
    forall i | 0 <= i < |s| ensures s[i] <= 0.0 {
      CountPositiveIffContains(Lower(texts[i]), Lower(query));
    }
    NothingPositiveNothingSelected(s, k, |texts|);
  }

  /** Keeping the chunks of the relevant entries of `top[..j]`, one more entry at a time. */
  lemma KeepRelevantStep(top: seq<nat>, s: seq<real>, bound: nat, j: nat)
    requires j < |top|
    ensures KeepRelevant(top[..j + 1], s, bound)
         == KeepRelevant(top[..j], s, bound) + (if Relevant(s, bound, top[j]) then [top[j]] else [])
  {
    assert top[..j + 1][..j] == top[..j];
  }

  /** The selection loop shared by both searches: the chunks of the relevant entries among the first `k`. */
  method TakeRelevant(chunks: seq<Chunk>, scores: seq<real>, k: nat, bound: nat) returns (relevant: seq<Chunk>)
    requires bound <= |chunks|
    ensures relevant == ChunksAt(chunks, SelectRelevant(scores, k, bound))
  {
    var order := RankOrder(scores);
    RankOrderIsRanking(scores);
    var top := Top(order, k);
    relevant := [];
    for j := 0 to |top|
      invariant relevant == ChunksAt(chunks, KeepRelevant(top[..j], scores, bound))
    {
      var idx := top[j];
      KeepRelevantStep(top, scores, bound, j);
      if idx < bound && scores[idx] > 0.0 {
        relevant := relevant + [chunks[idx]];
      }
    }
    assert top[..|top|] == top;
  }

  /** `fallback_search(vector_store, query, k)`. */
  method FallbackSearch(vs: VectorStore, query: string, k: nat) returns (relevant: seq<Chunk>)
    requires |vs.texts| <= |vs.chunks|
    ensures relevant == ChunksAt(vs.chunks, FallbackHits(vs.texts, query, k))
  {
    var queryLower := Lower(query);
    var scores: seq<real> := [];
    for i := 0 to |vs.texts|
      invariant |scores| == i
      invariant forall j :: 0 <= j < i ==> scores[j] == KeywordScore(vs.texts[j], query) as real
    {
      var score := CountOccurrences(Lower(vs.texts[i]), queryLower);
      scores := scores + [score as real];
    }
    assert scores == KeywordScores(vs.texts, query);
    relevant := TakeRelevant(vs.chunks, scores, k, |vs.texts|);
  }

  function SimilarityScores(angle: (Vec, Vec) -> real, q: Vec, embeddings: seq<Vec>): (s: seq<real>)
    ensures |s| == |embeddings|
    ensures forall i :: 0 <= i < |embeddings| ==> s[i] == RagCosine(angle, q, embeddings[i])
  {
    seq(|embeddings|, i requires 0 <= i < |embeddings| => RagCosine(angle, q, embeddings[i]))
  }

  /** The indices `similarity_search` returns the chunks of. */
  function SimilarityHits(b: Bedrock, angle: (Vec, Vec) -> real, vs: VectorStore, query: string, k: nat): (hits: seq<nat>)
    requires |vs.texts| <= |vs.chunks|
    ensures forall j :: 0 <= j < |hits| ==> hits[j] < |vs.chunks|
  {
    var q := GetTitanEmbedding(b, query);
    if !Usable(q) then FallbackHits(vs.texts, query, k)
    else SelectRelevant(SimilarityScores(angle, q.value, vs.embeddings), k, |vs.chunks|)
  }

  /**
   * `similarity_search` falls back to the keyword search exactly when the query
   * has no usable embedding; otherwise it returns at most `k` chunks, each with
   * a stored chunk and a positive score, by score descending, and a chunk with
   * a positive score is left out only when `k` chunks rank before it.
   */
  lemma SimilarityHitsSpec(b: Bedrock, angle: (Vec, Vec) -> real, vs: VectorStore, query: string, k: nat)
    requires |vs.texts| <= |vs.chunks|
    ensures !Usable(GetTitanEmbedding(b, query)) ==> SimilarityHits(b, angle, vs, query, k) == FallbackHits(vs.texts, query, k)
    ensures Usable(GetTitanEmbedding(b, query)) ==>
      var s := SimilarityScores(angle, GetTitanEmbedding(b, query).value, vs.embeddings);
      && |SimilarityHits(b, angle, vs, query, k)| <= k
      && (forall i :: i in SimilarityHits(b, angle, vs, query, k) ==> i < |vs.chunks| && i < |s| && s[i] > 0.0)
      && StrictlyRanked(s, SimilarityHits(b, angle, vs, query, k))
      && (forall x :: 0 <= x < |s| && x < |vs.chunks| && s[x] > 0.0 && x !in SimilarityHits(b, angle, vs, query, k) ==>
            k < |s| && forall y :: y in Top(RankOrder(s), k) ==> Before(s, y, x))
  {
    var q := GetTitanEmbedding(b, query);
    if Usable(q) {
      SelectRelevantSpec(SimilarityScores(angle, q.value, vs.embeddings), k, |vs.chunks|);
    }
  }

  /** A query that is blank once cleaned makes no embedding request and goes to the keyword search. */
  lemma BlankQueryFallsBack(b: Bedrock, angle: (Vec, Vec) -> real, vs: VectorStore, query: string, k: nat)
    requires |vs.texts| <= |vs.chunks|
    requires CleanText(query) == []
    ensures SimilarityHits(b, angle, vs, query, k) == FallbackHits(vs.texts, query, k)
  {
  }

  /** A chunk whose embedding failed at indexing time is never found by the embedding search. */
  lemma FailedEmbeddingNeverFound(b: Bedrock, angle: (Vec, Vec) -> real, vs: VectorStore, query: string, k: nat, i: nat)
    requires |vs.texts| <= |vs.chunks|
    requires Usable(GetTitanEmbedding(b, query))
    requires i < |vs.embeddings| && vs.embeddings[i] == Zeros(EmbeddingSize)
    ensures i !in SimilarityHits(b, angle, vs, query, k)
  {
    SimilarityHitsSpec(b, angle, vs, query, k);
    ZeroVectorScoresMinusOne(angle, GetTitanEmbedding(b, query).value);
  }

  /** `similarity_search(vector_store, query, k)`. */
  method SimilaritySearch(b: Bedrock, angle: (Vec, Vec) -> real, vs: VectorStore, query: string, k: nat)
    returns (relevant: seq<Chunk>)
    requires |vs.texts| <= |vs.chunks|
    ensures relevant == ChunksAt(vs.chunks, SimilarityHits(b, angle, vs, query, k))
  {
    var queryEmbedding := GetTitanEmbedding(b, query);
    if !(queryEmbedding.Some? && queryEmbedding.value != []) {
      relevant := FallbackSearch(vs, query, k);
      return;
    }
    var similarities: seq<real> := [];
    for i := 0 to |vs.embeddings|
      invariant |similarities| == i
      invariant forall j :: 0 <= j < i ==> similarities[j] == RagCosine(angle, queryEmbedding.value, vs.embeddings[j])
    {
      var sim := RagCosine(angle, queryEmbedding.value, vs.embeddings[i]);
      similarities := similarities + [sim];
    }
    assert similarities == SimilarityScores(angle, queryEmbedding.value, vs.embeddings);
    relevant := TakeRelevant(vs.chunks, similarities, k, |vs.chunks|);
  }

  // ---------------------------------------------------------------------------
  // The answer

  /** One context entry: `f"Đoạn {i+1}: {chunk['page_content']}"`. */
  function ContextEntry(n: nat, chunk: Chunk): string {
    "Đoạn " + NatToString(n) + ": " + chunk.pageContent
  }

  /** The number of an entry can be read back from it: entries with different numbers differ. */
  lemma ContextEntryInjective(m: nat, n: nat, x: Chunk, y: Chunk)
    requires ContextEntry(m, x) == ContextEntry(n, y)
    ensures m == n
  {
    var p := "Đoạn ";
    var dm, dn := NatToString(m), NatToString(n);
    var e := ContextEntry(m, x);
    assert e == p + dm + ": " + x.pageContent;
    assert e == p + dn + ": " + y.pageContent;
    assert e[|p| + |dm|] == ':' && e[|p| + |dn|] == ':';
    assert forall k :: |p| <= k < |p| + |dm| ==> e[k] == dm[k - |p|];
    assert forall k :: |p| <= k < |p| + |dn| ==> e[k] == dn[k - |p|];
    assert |dm| == |dn|;
    assert dm == e[|p|..|p| + |dm|] == dn;
    NatToStringInjective(m, n);
  }

  function ContextEntries(chunks: seq<Chunk>): (es: seq<string>)
    ensures |es| == |chunks|
    ensures forall i :: 0 <= i < |chunks| ==> es[i] == ContextEntry(i + 1, chunks[i])
  {
    seq(|chunks|, i requires 0 <= i < |chunks| => ContextEntry(i + 1, chunks[i]))
  }

  /** The context numbers its entries from one, so no two entries are alike, even for equal chunks. */
  lemma ContextEntriesDistinct(chunks: seq<Chunk>)
    ensures forall i, j :: 0 <= i < j < |chunks| ==> ContextEntries(chunks)[i] != ContextEntries(chunks)[j]
  {
    var es := ContextEntries(chunks);
    forall i, j | 0 <= i < j < |chunks| ensures es[i] != es[j] {
      if es[i] == es[j] {
        ContextEntryInjective(i + 1, j + 1, chunks[i], chunks[j]);
        assert false;
      }
    }
  }

  /** The context of the prompt: the numbered chunks separated by blank lines. */
  function Context(chunks: seq<Chunk>): string {
    JoinWith("\n\n", ContextEntries(chunks))
  }

  const PromptHead: string := "\n        Hãy đọc kỹ các đoạn văn bản sau từ tài liệu:\n\n        "
  const PromptMiddle: string := "\n\n        Dựa TRÊN các đoạn văn bản trên, hãy trả lời câu hỏi sau:\n        Câu hỏi: "
  const PromptTail: string := "\n\n        YÊU CẦU QUAN TRỌNG:\n        - CHỈ sử dụng thông tin từ các đoạn văn bản trên\n        - KHÔNG sử dụng kiến thức bên ngoài\n        - Nếu không đủ thông tin để trả lời, hãy nói rõ: \"Không có đủ thông tin trong tài liệu để trả lời câu hỏi này\"\n        - Trả lời bằng tiếng Việt, rõ ràng và chi tiết\n        - Giữ nguyên tên riêng, thuật ngữ chuyên môn từ tài liệu gốc\n\n        Trả lời:\n        "

  /** The RAG prompt of `answer_question`. */
  function Prompt(chunks: seq<Chunk>, question: string): string {
    Fill(PromptHead, Context(chunks), PromptMiddle, question, PromptTail)
  }

  /** The prompt quotes every retrieved chunk, numbered, and the question. */
  lemma PromptGrounded(chunks: seq<Chunk>, question: string)
    ensures forall i :: 0 <= i < |chunks| ==> Contains(Prompt(chunks, question), ContextEntry(i + 1, chunks[i]))
    ensures Contains(Prompt(chunks, question), question)
  {
    var es := ContextEntries(chunks);
    forall i | 0 <= i < |chunks| ensures Contains(Prompt(chunks, question), ContextEntry(i + 1, chunks[i])) {
      JoinWithContains("\n\n", es, i);
      FillContainsFirst(PromptHead, Context(chunks), PromptMiddle, question, PromptTail, es[i]);
    }
    FillContainsSecond(PromptHead, Context(chunks), PromptMiddle, question, PromptTail);
  }

  /** The truth value of a generated answer: present and not empty. */
  predicate Truthy(a: Option<string>) {
    a.Some? && a.value != []
  }

  /** Titan first; Claude only when Titan gave nothing. */
  function Generate(b: Bedrock, prompt: string): Option<string> {
    var answer := b.titan(prompt);
    if Truthy(answer) then answer else b.claude(prompt)
  }

  /** Claude is not consulted when Titan answers: its reply cannot change the result. */
  lemma ClaudeOnlyAfterTitan(b1: Bedrock, b2: Bedrock, prompt: string)
    requires b1.titan(prompt) == b2.titan(prompt) && Truthy(b1.titan(prompt))
    ensures Generate(b1, prompt) == Generate(b2, prompt) == b1.titan(prompt)
  {
  }

  /** When Titan gives nothing, the result is Claude's reply. */
  lemma ClaudeAfterTitanFails(b: Bedrock, prompt: string)
    requires !Truthy(b.titan(prompt))
    ensures Generate(b, prompt) == b.claude(prompt)
  {
  }

  /** The answer cleaning: strip, then remove one pair of enclosing double quotes. */
  function CleanAnswer(answer: string): (r: string)
    ensures |r| <= |answer|
  {
    var a := Strip(answer);
    if a != [] && a[0] == '"' && a[|a| - 1] == '"' then
      (if |a| == 1 then "" else a[1..|a| - 1])
    else a
  }

  /** The cleaned answer is a piece of the raw answer. */
  lemma CleanAnswerWithin(answer: string)
    ensures Contains(answer, CleanAnswer(answer))
  {
    var a := Strip(answer);
    var i, j := StripSlice(answer);
    if a != [] && a[0] == '"' && a[|a| - 1] == '"' {
      if |a| == 1 {
        assert OccursAt(answer, "", 0);
      } else {
        assert answer[i + 1..j - 1] == answer[i..j][1..|a| - 1];
        assert OccursAt(answer, a[1..|a| - 1], i + 1);
      }
    } else {
      assert OccursAt(answer, a, i);
    }
  }

  /** A quoted answer loses its quotes and nothing else. */
  lemma CleanAnswerUnquotes(t: string)
    ensures CleanAnswer("\"" + t + "\"") == t
  {
    var a := "\"" + t + "\"";
    StripTrimmed(a);
    assert a[1..|a| - 1] == t;
  }

  /** An answer that is not enclosed in quotes is only stripped. */
  lemma CleanAnswerUnquoted(answer: string)
    requires var a := Strip(answer); a == [] || a[0] != '"' || a[|a| - 1] != '"'
    ensures CleanAnswer(answer) == Strip(answer)
  {
  }

  /** Only one pair of quotes is removed. */
  lemma CleanAnswerOnePair()
    ensures CleanAnswer("\"\"x\"\"") == "\"x\""
  {
    CleanAnswerUnquotes("\"x\"");
    assert "\"" + "\"x\"" + "\"" == "\"\"x\"\"";
  }

  /** A lone quote, with any whitespace around it, becomes the empty answer. */
  lemma CleanAnswerLoneQuote(ws1: string, ws2: string)
    requires AllSpace(ws1) && AllSpace(ws2)
    ensures CleanAnswer(ws1 + "\"" + ws2) == ""
  {
    StripAround(ws1, "\"", ws2);
  }

  /** Whitespace around a quoted answer goes, and so do the quotes, whatever is between them. */
  lemma CleanAnswerQuotedAround(ws1: string, t: string, ws2: string)
    requires AllSpace(ws1) && AllSpace(ws2)
    ensures CleanAnswer(ws1 + "\"" + t + "\"" + ws2) == t
  {
    var q := "\"" + t + "\"";
    StripAround(ws1, q, ws2);
    assert ws1 + "\"" + t + "\"" + ws2 == ws1 + q + ws2;
    assert q[1..|q| - 1] == t;
  }

  /** Whitespace around an answer that is not enclosed in quotes goes, and nothing else. */
  lemma CleanAnswerPlainAround(ws1: string, t: string, ws2: string)
    requires AllSpace(ws1) && AllSpace(ws2) && t != [] && Trimmed(t)
    requires t[0] != '"' || t[|t| - 1] != '"'
    ensures CleanAnswer(ws1 + t + ws2) == t
  {
    StripAround(ws1, t, ws2);
  }

  /** The answer `answer_question` returns once the relevant chunks are known. */
  function ComposeAnswer(b: Bedrock, relevant: seq<Chunk>, question: string): string {
    if relevant == [] then NotFoundMessage
    else
      var answer := Generate(b, Prompt(relevant, question));
      if !Truthy(answer) then ApologyMessage else CleanAnswer(answer.value)
  }

  /** Nothing relevant: the fixed message, whatever the generators would say. */
  lemma NothingRelevantNoGeneration(b1: Bedrock, b2: Bedrock, question: string)
    ensures ComposeAnswer(b1, [], question) == NotFoundMessage
    ensures ComposeAnswer(b1, [], question) == ComposeAnswer(b2, [], question)
  {
  }

  /** Both generators fail: the apology. */
  lemma BothFailApology(b: Bedrock, relevant: seq<Chunk>, question: string)
    requires relevant != []
    requires !Truthy(b.titan(Prompt(relevant, question))) && !Truthy(b.claude(Prompt(relevant, question)))
    ensures ComposeAnswer(b, relevant, question) == ApologyMessage
  {
  }

  /** Titan answers: the cleaned Titan answer, whatever Claude would say. */
  lemma TitanAnswerUsed(b1: Bedrock, b2: Bedrock, relevant: seq<Chunk>, question: string)
    requires relevant != []
    requires b1.titan(Prompt(relevant, question)) == b2.titan(Prompt(relevant, question))
    requires Truthy(b1.titan(Prompt(relevant, question)))
    ensures ComposeAnswer(b1, relevant, question) == CleanAnswer(b1.titan(Prompt(relevant, question)).value)
    ensures ComposeAnswer(b1, relevant, question) == ComposeAnswer(b2, relevant, question)
  {
  }

  /** The answer to `question` from the store: the composition over the top three hits. */
  function Answer(b: Bedrock, angle: (Vec, Vec) -> real, vs: VectorStore, question: string): string
    requires |vs.texts| <= |vs.chunks|
  {
    ComposeAnswer(b, ChunksAt(vs.chunks, SimilarityHits(b, angle, vs, question, TopK)), question)
  }

  /** `answer_question(vector_store, question)`. */
  method AnswerQuestion(b: Bedrock, angle: (Vec, Vec) -> real, vs: VectorStore, question: string)
    returns (answer: string)
    requires |vs.texts| <= |vs.chunks|
    ensures answer == Answer(b, angle, vs, question)
  {
    var relevant := SimilaritySearch(b, angle, vs, question, TopK);
    if relevant == [] {
      return NotFoundMessage;
    }
    var prompt := Prompt(relevant, question);
    var generated := b.titan(prompt);
    if !(generated.Some? && generated.value != []) {
      generated := b.claude(prompt);
    }
    if !(generated.Some? && generated.value != []) {
      return ApologyMessage;
    }
    answer := CleanAnswer(generated.value);
  }
}
