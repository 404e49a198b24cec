/**
 * The Lambda handlers of `handler.py`, as far as they decide anything: the
 * upload validator, the index built by `upload`, and `ask` with its question
 * checks, its own ranking of the stored texts and its answer fallbacks.
 *
 * DynamoDB and S3 are not modelled: what `ask` reads from them (the session
 * item and the stored index) is given as parameters. The Bedrock runtime is
 * `Rag.Bedrock`, shared with `rag_bedrock.py` through the global instance.
 */
module Handler {
  import opened Wrappers
  import opened Text
  import opened Chunker
  import opened Ranking
  import Rag

  const AllowedTypes: seq<string> := ["application/pdf", "text/plain"]
  const AllowedExtensions: seq<string> := [".pdf", ".txt"]

  /** `MAX_FILE_SIZE`: 10 MiB. */
  const MaxFileSize: nat := 10 * 1024 * 1024

  const MaxQuestionLength: nat := 1000

  /** The `top_k` of `ask`. */
  const AskTopK: nat := 3

  // ---------------------------------------------------------------------------
  // validate_file

  /** The position of the last `c` in `p`, or -1 when there is none (`p.rfind(c)`). */
  function LastIndexOf(p: string, c: char): (i: int)
    ensures -1 <= i < |p|
    ensures i >= 0 ==> p[i] == c
    ensures forall k :: i < k < |p| ==> p[k] != c
    decreases |p|
  {
    if p == [] then -1
    else if p[|p| - 1] == c then |p| - 1
    else LastIndexOf(p[..|p| - 1], c)
  }

  /** Some character of `p[from..to]` is not a dot. */
  predicate HasNonDot(p: string, from: nat, to: nat)
    requires from <= to <= |p|
  {
    exists k | from <= k < to :: p[k] != '.'
  }

  /**
   * `os.path.splitext(p)[1]` on POSIX: from the last dot on, when that dot
   * lies in the last path component and is not one of the dots the
   * component starts with; otherwise empty.
   */
  function Extension(p: string): (ext: string)
    ensures ext == [] || (ext[0] == '.' && '/' !in ext && '.' !in ext[1..])
  {
    var slash := LastIndexOf(p, '/');
    var dot := LastIndexOf(p, '.');
    if dot > slash && HasNonDot(p, slash + 1, dot) then
      var ext := p[dot..];
      assert forall k :: 0 <= k < |ext| ==> ext[k] == p[dot + k];
      ext
    else []
  }

  /** The extension is a suffix of the path, and a path without a dot has none. */
  lemma ExtensionIsSuffix(p: string)
    ensures var ext := Extension(p); ext != [] ==> |ext| <= |p| && p[|p| - |ext|..] == ext
    ensures '.' !in p ==> Extension(p) == []
  {
  }

  /** A name made of a stem with some character other than a dot, and a dotted suffix, has that suffix as extension. */
  lemma ExtensionOfName(stem: string, suffix: string)
    requires '/' !in stem && exists k | 0 <= k < |stem| :: stem[k] != '.'
    requires '.' !in suffix && '/' !in suffix
    ensures Extension(stem + "." + suffix) == "." + suffix
  {
    var p := stem + "." + suffix;
    var dot := |stem|;
    assert p[dot] == '.';
    assert forall k :: dot < k < |p| ==> p[k] == suffix[k - dot - 1];
    assert LastIndexOf(p, '.') == dot;
    assert forall k :: 0 <= k < |p| ==> p[k] != '/' by {
      forall k | 0 <= k < |p| ensures p[k] != '/' {
        if k < |stem| { assert p[k] == stem[k]; } else if k > dot { assert p[k] == suffix[k - dot - 1]; }
      }
    }
    assert LastIndexOf(p, '/') == -1;
    var j :| 0 <= j < |stem| && stem[j] != '.';
    assert p[j] == stem[j];
    assert HasNonDot(p, 0, dot);
    assert p[dot..] == "." + suffix;
  }

  /** An accepted file name ends, once lower-cased, in ".pdf" or ".txt". */
  lemma AcceptedNameSuffix(filename: string, contentType: string, fileSize: Option<int>)
    requires ValidateFile(filename, contentType, fileSize).Success?
    ensures var l := Lower(filename); |l| >= 4 && (l[|l| - 4..] == ".pdf" || l[|l| - 4..] == ".txt")
  {
    ExtensionIsSuffix(Lower(filename));
  }

  /** Dots that start the last path component do not start an extension: ".pdf" has none. */
  lemma HiddenNameNoExtension()
    ensures Extension(".pdf") == []
    ensures Extension("test.exe") == ".exe"
  {
    var hidden := ".pdf";
    assert hidden[..3] == ".pd" && ".pd"[..2] == ".p" && ".p"[..1] == ".";
    assert LastIndexOf(".", '.') == 0;
    assert LastIndexOf(hidden, '.') == 0;
    assert LastIndexOf(hidden, '/') == -1;
    assert "test"[0] != '.';
    ExtensionOfName("test", "exe");
    assert "test" + "." + "exe" == "test.exe";
  }

  function TypeError(contentType: string): string {
    "Unsupported file type: " + contentType + ". Allowed types: " + JoinWith(", ", AllowedTypes)
  }

  function ExtensionError(ext: string): string {
    "Unsupported file extension: " + ext + ". Allowed extensions: " + JoinWith(", ", AllowedExtensions)
  }

  function SizeError(size: nat): string {
    "File size (" + NatToString(size) + " bytes) exceeds maximum allowed size (" + NatToString(MaxFileSize) + " bytes)"
  }

  /** `file_size and file_size > MAX_FILE_SIZE`: a size is given, it is not 0, and it is too large. */
  predicate TooLarge(fileSize: Option<int>) {
    fileSize.Some? && fileSize.value != 0 && fileSize.value > MaxFileSize
  }

  /** `validate_file(filename, content_type, file_size)`: `True`, or the message of the `ValueError` raised. */
  function ValidateFile(filename: string, contentType: string, fileSize: Option<int>): Result<bool, string> {
    if contentType !in AllowedTypes then
      Failure(TypeError(contentType))
    else
      var ext := Extension(Lower(filename));
      if ext !in AllowedExtensions then Failure(ExtensionError(ext))
      else if TooLarge(fileSize) then Failure(SizeError(fileSize.value))
      else Success(true)
  }

  /**
   * A file is accepted exactly when its content type is allowed, the
   * extension of its lower-cased name is `.pdf` or `.txt`, and it is not too
   * large; the checks run in that order, and acceptance returns `True`.
   */
  lemma ValidateFileSpec(filename: string, contentType: string, fileSize: Option<int>)
    ensures ValidateFile(filename, contentType, fileSize).Success? <==>
      contentType in AllowedTypes && Extension(Lower(filename)) in AllowedExtensions && !TooLarge(fileSize)
    ensures ValidateFile(filename, contentType, fileSize).Success? ==> ValidateFile(filename, contentType, fileSize).value
    ensures contentType !in AllowedTypes ==> ValidateFile(filename, contentType, fileSize) == Failure(TypeError(contentType))
    ensures contentType in AllowedTypes && Extension(Lower(filename)) !in AllowedExtensions ==>
      ValidateFile(filename, contentType, fileSize) == Failure(ExtensionError(Extension(Lower(filename))))
  {
  }

  /** Exactly 10 MiB passes, one byte more does not, and a missing or zero size is not checked. */
  lemma SizeBoundary(filename: string, contentType: string)
    requires contentType in AllowedTypes && Extension(Lower(filename)) in AllowedExtensions
    ensures ValidateFile(filename, contentType, Some(MaxFileSize)) == Success(true)
    ensures ValidateFile(filename, contentType, Some(MaxFileSize + 1)) == Failure(SizeError(MaxFileSize + 1))
    ensures ValidateFile(filename, contentType, None) == Success(true)
    ensures ValidateFile(filename, contentType, Some(0)) == Success(true)
  {
  }

  /** An executable is turned away on its content type, and with an allowed type on its extension. */
  lemma ExecutableRejected()
    ensures ValidateFile("test.exe", "application/x-msdownload", None) == Failure(TypeError("application/x-msdownload"))
    ensures ValidateFile("test.exe", "text/plain", None) == Failure(ExtensionError(".exe"))
  {
    var name := "test.exe";
    assert Lower(name) == name;
    HiddenNameNoExtension();
  }

  /** The extension is compared after lower-casing the name: "REPORT.PDF" is a PDF. */
  lemma UpperCaseExtensionAccepted()
    ensures ValidateFile("REPORT.PDF", "application/pdf", Some(1024)) == Success(true)
  {
    assert Lower("REPORT.PDF") == "report.pdf";
    assert "report"[0] != '.';
    ExtensionOfName("report", "pdf");
    assert "report" + "." + "pdf" == "report.pdf";
  }

  // ---------------------------------------------------------------------------
  // The question checks of ask

  const EmptyQuestion: string := "Question cannot be empty"
  const QuestionTooLong: string := "Question is too long (max 1000 characters)"

  /** `body.get('question', '').strip()` and the two checks on it. */
  function ValidateQuestion(raw: Option<string>): (r: Result<string, string>)
    ensures r.Success? ==> r.value != [] && Trimmed(r.value) && |r.value| <= MaxQuestionLength
  {
    var question := Strip(if raw.Some? then raw.value else "");
    if question == [] then Failure(EmptyQuestion)
    else if |question| > MaxQuestionLength then Failure(QuestionTooLong)
    else Success(question)
  }

  /**
   * A question passes exactly when it is not blank and at most 1000 characters
   * long once stripped; the stripped question is what the handler goes on with.
   */
  lemma ValidateQuestionSpec(raw: Option<string>)
    ensures var q := Strip(if raw.Some? then raw.value else "");
      && (ValidateQuestion(raw).Success? <==> q != [] && |q| <= MaxQuestionLength)
      && (ValidateQuestion(raw).Success? ==> ValidateQuestion(raw).value == q)
      && (q == [] ==> ValidateQuestion(raw) == Failure(EmptyQuestion))
      && (|q| > MaxQuestionLength ==> ValidateQuestion(raw) == Failure(QuestionTooLong))
  {
  }

  /** A missing question is empty. */
  lemma MissingQuestionEmpty()
    ensures ValidateQuestion(None) == Failure(EmptyQuestion)
  {
  }

  /** Exactly 1000 characters pass, 1001 do not; surrounding whitespace does not count. */
  lemma QuestionLengthBoundary(q: string)
    requires q != [] && Trimmed(q)
    ensures |q| == MaxQuestionLength ==> ValidateQuestion(Some(q)) == Success(q)
    ensures |q| == MaxQuestionLength + 1 ==> ValidateQuestion(Some(q)) == Failure(QuestionTooLong)
    ensures |q| <= MaxQuestionLength ==> ValidateQuestion(Some(q + " ")) == Success(q)
  {
    StripTrimmed(q);
    StripTrailingBlank(q);
  }

  // ---------------------------------------------------------------------------
  // The index built by upload

  const ProcessingFailed: string := "Failed to process document. The file may be empty or corrupted."

  /** The index object `upload` stores (without the session id and the timestamp). */
  datatype Index = Index(filename: string, chunksCount: nat, texts: seq<string>, embeddings: seq<Rag.Vec>)

  /** `get_titan_embedding(text) or []`: a failed embedding is stored as the empty list. */
  function IndexEmbedding(b: Rag.Bedrock, text: string): Rag.Vec {
    var e := Rag.GetTitanEmbedding(b, text);
    if Rag.Usable(e) then e.value else []
  }

  /** `[chunk["page_content"] for chunk in chunks]`. */
  function Contents(chunks: seq<Chunk>): (texts: seq<string>)
    ensures |texts| == |chunks|
    ensures forall i :: 0 <= i < |chunks| ==> texts[i] == chunks[i].pageContent
  {
    seq(|chunks|, i requires 0 <= i < |chunks| => chunks[i].pageContent)
  }

  function IndexEmbeddings(b: Rag.Bedrock, chunks: seq<Chunk>): (embeddings: seq<Rag.Vec>)
    ensures |embeddings| == |chunks|
    ensures forall i :: 0 <= i < |chunks| ==> embeddings[i] == IndexEmbedding(b, chunks[i].pageContent)
  {
    seq(|chunks|, i requires 0 <= i < |chunks| => IndexEmbedding(b, chunks[i].pageContent))
  }

  /** The outcome of the indexing part of `upload` for the chunks of a document. */
  function IndexFor(b: Rag.Bedrock, filename: string, chunks: seq<Chunk>): (r: Result<Index, string>)
    ensures r.Failure? <==> chunks == []
    ensures r.Failure? ==> r.error == ProcessingFailed
    ensures r.Success? ==>
      && r.value.filename == filename
      && r.value.chunksCount == |chunks| == |r.value.texts| == |r.value.embeddings|
      && (forall i :: 0 <= i < |chunks| ==> r.value.texts[i] == chunks[i].pageContent)
      && (forall i :: 0 <= i < |chunks| ==> r.value.embeddings[i] == IndexEmbedding(b, chunks[i].pageContent))
  {
    if chunks == [] then Failure(ProcessingFailed)
    else Success(Index(filename, |chunks|, Contents(chunks), IndexEmbeddings(b, chunks)))
  }

  /** The loop of `upload` that builds `texts` and `embeddings`. */
  method BuildIndex(b: Rag.Bedrock, filename: string, chunks: seq<Chunk>) returns (r: Result<Index, string>)
    ensures r == IndexFor(b, filename, chunks)
  {
    if chunks == [] {
      return Failure(ProcessingFailed);
    }
    var embeddings: seq<Rag.Vec> := [];
    var texts: seq<string> := [];
    for i := 0 to |chunks|
      invariant texts == Contents(chunks[..i])
      invariant embeddings == IndexEmbeddings(b, chunks[..i])
    {
      var text := chunks[i].pageContent;
      var emb := Rag.GetTitanEmbedding(b, text);
      var stored := if emb.Some? && emb.value != [] then emb.value else [];
      assert chunks[..i + 1] == chunks[..i] + [chunks[i]];
      embeddings := embeddings + [stored];
      texts := texts + [text];
    }
    assert chunks[..|chunks|] == chunks;
    r := Success(Index(filename, |chunks|, texts, embeddings));
  }

  /** A document with no sentence (blank, or terminators only) is refused before any embedding. */
  lemma BlankDocumentRefused(b: Rag.Bedrock, filename: string, text: string, chunks: seq<Chunk>)
    requires |chunks| == |ChunkTexts(text)|
    ensures IndexFor(b, filename, chunks) == Failure(ProcessingFailed) <==> Sentences(text) == []
  {
    NoSentenceNoChunk(text);
  }

  // ---------------------------------------------------------------------------
  // The ranking of ask

  /** The inline `cosine(a, b)` of `ask`: no length check, unlike `cosine_similarity`. */
  function HandlerCosine(angle: (Rag.Vec, Rag.Vec) -> real, a: Rag.Vec, b: Rag.Vec): (r: real)
    ensures a == [] || b == [] || Rag.ZeroNorm(a) || Rag.ZeroNorm(b) ==> r == -1.0
  {
    if a == [] || b == [] then -1.0
    else if Rag.ZeroNorm(a) || Rag.ZeroNorm(b) then -1.0
    else angle(a, b)
  }

  /** The two markers of a failed embedding both score -1: `[]` here, 1536 zeros in `create_vector_store`. */
  lemma FailureMarkersScoreMinusOne(angle: (Rag.Vec, Rag.Vec) -> real, q: Rag.Vec)
    ensures HandlerCosine(angle, q, []) == -1.0
    ensures Rag.RagCosine(angle, q, Rag.Zeros(Rag.EmbeddingSize)) == -1.0
    ensures HandlerCosine(angle, q, Rag.Zeros(Rag.EmbeddingSize)) == -1.0
  {
  }

  /** Vectors of different lengths: `cosine_similarity` refuses them, the inline `cosine` does not. */
  lemma LengthGuardDiffers(angle: (Rag.Vec, Rag.Vec) -> real, a: Rag.Vec, b: Rag.Vec)
    requires a != [] && b != [] && |a| != |b| && !Rag.ZeroNorm(a) && !Rag.ZeroNorm(b)
    ensures Rag.RagCosine(angle, a, b) == -1.0
    ensures HandlerCosine(angle, a, b) == angle(a, b)
  {
  }

  /** `query_emb and embeddings`: the embedding path is taken. */
  predicate EmbeddingPath(queryEmbedding: Option<Rag.Vec>, embeddings: seq<Rag.Vec>) {
    Rag.Usable(queryEmbedding) && embeddings != []
  }

  function CosineScores(angle: (Rag.Vec, Rag.Vec) -> real, q: Rag.Vec, embeddings: seq<Rag.Vec>): (s: seq<real>)
    ensures |s| == |embeddings|
    ensures forall i :: 0 <= i < |embeddings| ==> s[i] == HandlerCosine(angle, q, embeddings[i])
  {
    seq(|embeddings|, i requires 0 <= i < |embeddings| => HandlerCosine(angle, q, embeddings[i]))
  }

  /** The scores `ask` sorts: cosines on the embedding path, keyword counts otherwise. */
  function AskScores(b: Rag.Bedrock, angle: (Rag.Vec, Rag.Vec) -> real, question: string,
                     texts: seq<string>, embeddings: seq<Rag.Vec>): (s: seq<real>)
    ensures !EmbeddingPath(Rag.GetTitanEmbedding(b, question), embeddings) ==> s == Rag.KeywordScores(texts, question)
    ensures EmbeddingPath(Rag.GetTitanEmbedding(b, question), embeddings) ==>
      && |s| == |embeddings|
      && forall i :: 0 <= i < |embeddings| ==>
        s[i] == HandlerCosine(angle, Rag.GetTitanEmbedding(b, question).value, embeddings[i])
  {
    var q := Rag.GetTitanEmbedding(b, question);
    if EmbeddingPath(q, embeddings) then CosineScores(angle, q.value, embeddings)
    else Rag.KeywordScores(texts, question)
  }

  /** The indices of the first three entries of the sorted scores. */
  function AskTop(b: Rag.Bedrock, angle: (Rag.Vec, Rag.Vec) -> real, question: string,
                  texts: seq<string>, embeddings: seq<Rag.Vec>): seq<nat> {
    Top(RankOrder(AskScores(b, angle, question, texts, embeddings)), AskTopK)
  }

  /** The text of `list index out of range`, reported as `Ask failed: ...`. */
  const IndexOutOfRange: string := "Ask failed: list index out of range"

  /** `[texts[i] for i, _ in scores[:top_k]]`, or the error when an index has no text. */
  function AskRanked(b: Rag.Bedrock, angle: (Rag.Vec, Rag.Vec) -> real, question: string,
                     texts: seq<string>, embeddings: seq<Rag.Vec>): Result<seq<string>, string> {
    var top := AskTop(b, angle, question, texts, embeddings);
    if forall j | 0 <= j < |top| :: top[j] < |texts| then
      Success(seq(|top|, j requires 0 <= j < |top| => texts[top[j]]))
    else
      Failure(IndexOutOfRange)
  }

  /**
   * With at most one embedding per text, the ranking succeeds with exactly
   * `min(3, number of scores)` texts, taken in ranking order, and no text is
   * left out unless three rank before it; there is no score floor.
   */
  lemma AskRankedSpec(b: Rag.Bedrock, angle: (Rag.Vec, Rag.Vec) -> real, question: string,
                      texts: seq<string>, embeddings: seq<Rag.Vec>)
    requires |embeddings| <= |texts|
    ensures var s := AskScores(b, angle, question, texts, embeddings);
      var top := AskTop(b, angle, question, texts, embeddings);
      var r := AskRanked(b, angle, question, texts, embeddings);
      && r.Success?
      && |r.value| == |top| == (if |s| < AskTopK then |s| else AskTopK)
      && (forall j :: 0 <= j < |top| ==> top[j] < |texts| && r.value[j] == texts[top[j]])
      && StrictlyRanked(s, top)
      && (forall x :: 0 <= x < |s| && x !in top ==> forall y :: y in top ==> Before(s, y, x))
  {
    var s := AskScores(b, angle, question, texts, embeddings);
    var order := RankOrder(s);
    RankOrderIsRanking(s);
    TopRanked(s, order, AskTopK);
    forall x | 0 <= x < |s| && x !in Top(order, AskTopK)
      ensures forall y :: y in Top(order, AskTopK) ==> Before(s, y, x)
    {
      TopIsBest(s, order, AskTopK, x);
    }
  }

  /** When every text has its embedding slot, `ask` ranks exactly `min(3, len(texts))` texts. */
  lemma AskRankedCount(b: Rag.Bedrock, angle: (Rag.Vec, Rag.Vec) -> real, question: string,
                       texts: seq<string>, embeddings: seq<Rag.Vec>)
    requires |embeddings| == |texts|
    ensures AskRanked(b, angle, question, texts, embeddings).Success?
    ensures |AskRanked(b, angle, question, texts, embeddings).value| == if |texts| < AskTopK then |texts| else AskTopK
  {
    AskRankedSpec(b, angle, question, texts, embeddings);
  }

  /** The indices `0 .. n - 1` in order. */
  function Indices(n: nat): (r: seq<nat>)
    ensures |r| == n && forall i :: 0 <= i < n ==> r[i] == i
  {
    seq(n, i requires 0 <= i < n => i as nat)
  }

  /** Equal scores everywhere, whatever their value, leave the indices in their original order. */
  lemma EqualScoresKeepOrder(s: seq<real>, c: real)
    requires forall i :: 0 <= i < |s| ==> s[i] == c
    ensures RankOrder(s) == Indices(|s|)
  {
    var r := Indices(|s|);
    forall i | 0 <= i < |s| ensures i in r {
      assert r[i] == i;
    }
    RankingUnique(s, r);
  }

  /**
   * The embedding path is taken even when every stored embedding failed;
   * every score is then -1, the top indices are the first `min(3, n)` of the
   * `n` embeddings in stored order, and with a text for each embedding those
   * are the texts `ask` uses.
   */
  lemma AllEmbeddingsFailed(b: Rag.Bedrock, angle: (Rag.Vec, Rag.Vec) -> real, question: string,
                            texts: seq<string>, embeddings: seq<Rag.Vec>)
    requires Rag.Usable(Rag.GetTitanEmbedding(b, question))
    requires embeddings != [] && forall i :: 0 <= i < |embeddings| ==> embeddings[i] == []
    ensures EmbeddingPath(Rag.GetTitanEmbedding(b, question), embeddings)
    ensures AskTop(b, angle, question, texts, embeddings) == Top(Indices(|embeddings|), AskTopK)
    ensures |embeddings| <= |texts| ==>
      AskRanked(b, angle, question, texts, embeddings) ==
        Success(texts[..if |embeddings| < AskTopK then |embeddings| else AskTopK])
  {
    EqualScoresKeepOrder(AskScores(b, angle, question, texts, embeddings), -1.0);
    if |embeddings| <= |texts| {
      AskRankedSpec(b, angle, question, texts, embeddings);
      var top := AskTop(b, angle, question, texts, embeddings);
      var n := if |embeddings| < AskTopK then |embeddings| else AskTopK;
      assert |top| == n && forall j :: 0 <= j < n ==> top[j] == j;
      var r := AskRanked(b, angle, question, texts, embeddings);
      assert r.value == texts[..n];
    }
  }

  /** Unlike `rag_bedrock.py`, texts with no keyword match are still ranked and sent. */
  lemma NoScoreFloor(b: Rag.Bedrock, angle: (Rag.Vec, Rag.Vec) -> real, question: string, texts: seq<string>)
    requires |texts| >= AskTopK
    requires !Rag.Usable(Rag.GetTitanEmbedding(b, question))
    ensures AskRanked(b, angle, question, texts, []).Success? && |AskRanked(b, angle, question, texts, []).value| == AskTopK
    ensures (forall i :: 0 <= i < |texts| ==> !Contains(Lower(texts[i]), Lower(question))) ==>
      Rag.FallbackHits(texts, question, AskTopK) == []
  {
    AskRankedSpec(b, angle, question, texts, []);
    if forall i :: 0 <= i < |texts| ==> !Contains(Lower(texts[i]), Lower(question)) {
      Rag.FallbackNoMatch(texts, question, AskTopK);
    }
  }

  /** The ranking step of `ask`, with the keyword loop of the fallback. */
  method RankForAsk(b: Rag.Bedrock, angle: (Rag.Vec, Rag.Vec) -> real, question: string,
                    texts: seq<string>, embeddings: seq<Rag.Vec>) returns (ranked: Result<seq<string>, string>)
    ensures ranked == AskRanked(b, angle, question, texts, embeddings)
  {
    var queryEmb := Rag.GetTitanEmbedding(b, question);
    var scores: seq<real>;
    if queryEmb.Some? && queryEmb.value != [] && embeddings != [] {
      scores := seq(|embeddings|, i requires 0 <= i < |embeddings| => HandlerCosine(angle, queryEmb.value, embeddings[i]));
    } else {
      var q := Lower(question);
      scores := [];
      for i := 0 to |texts|
        invariant |scores| == i
        invariant forall j :: 0 <= j < i ==> scores[j] == Rag.KeywordScore(texts[j], question) as real
      {
        scores := scores + [CountOccurrences(Lower(texts[i]), q) as real];
      }
    }
    assert scores == AskScores(b, angle, question, texts, embeddings);
    var top := Top(RankOrder(scores), AskTopK);
    if forall j | 0 <= j < |top| :: top[j] < |texts| {
      ranked := Success(seq(|top|, j requires 0 <= j < |top| => texts[top[j]]));
    } else {
      ranked := Failure(IndexOutOfRange);
    }
  }

  // ---------------------------------------------------------------------------
  // The answer of ask

  const AskPromptHead: string := "D·ª±a tr√™n c√°c ƒëo·∫°n sau t·ª´ t√†i li·ªáu:\n\n"
  const AskPromptMiddle: string := "\n\nC√¢u h·ªèi: "
  const AskPromptTail: string := "\n\nTr·∫£ l·ªùi:"

  /** The sentinel of the document path. */
  const DocumentSentinel: string := "Kh√¥ng th·ªÉ t·∫°o c√¢u tr·∫£ l·ªùi."

  /** The sentinel of the general path. */
  const GeneralSentinel: string := "Sorry, I couldn't generate an answer."

  /** The prompt of the document path: the ranked texts separated by blank lines, then the question. */
  function AskPrompt(ranked: seq<string>, question: string): string {
    Fill(AskPromptHead, JoinWith("\n\n", ranked), AskPromptMiddle, question, AskPromptTail)
  }

  /** Every ranked text and the question occur in the prompt. */
  lemma AskPromptGrounded(ranked: seq<string>, question: string)
    ensures forall i :: 0 <= i < |ranked| ==> Contains(AskPrompt(ranked, question), ranked[i])
    ensures Contains(AskPrompt(ranked, question), question)
  {
    forall i | 0 <= i < |ranked| ensures Contains(AskPrompt(ranked, question), ranked[i]) {
      JoinWithContains("\n\n", ranked, i);
      FillContainsFirst(AskPromptHead, JoinWith("\n\n", ranked), AskPromptMiddle, question, AskPromptTail, ranked[i]);
    }
    FillContainsSecond(AskPromptHead, JoinWith("\n\n", ranked), AskPromptMiddle, question, AskPromptTail);
  }

  /** `answer or sentinel` after Titan, then Claude: no stripping and no unquoting here. */
  function AnswerOr(b: Rag.Bedrock, prompt: string, sentinel: string): (r: string)
    ensures r == sentinel || (Rag.Truthy(Rag.Generate(b, prompt)) && r == Rag.Generate(b, prompt).value)
  {
    var answer := Rag.Generate(b, prompt);
    if Rag.Truthy(answer) then answer.value else sentinel
  }

  /** Titan's answer, when it gives one, is returned verbatim and Claude is not consulted. */
  lemma TitanAnswerVerbatim(b1: Rag.Bedrock, b2: Rag.Bedrock, prompt: string, sentinel: string)
    requires b1.titan(prompt) == b2.titan(prompt) && Rag.Truthy(b1.titan(prompt))
    ensures AnswerOr(b1, prompt, sentinel) == b1.titan(prompt).value
    ensures AnswerOr(b1, prompt, sentinel) == AnswerOr(b2, prompt, sentinel)
  {
    Rag.ClaudeOnlyAfterTitan(b1, b2, prompt);
  }

  /** The sentinel exactly when both generators give nothing (or an empty answer). */
  lemma SentinelWhenBothFail(b: Rag.Bedrock, prompt: string, sentinel: string)
    requires sentinel != []
    ensures AnswerOr(b, prompt, sentinel) == sentinel <==>
      (!Rag.Truthy(b.titan(prompt)) && !Rag.Truthy(b.claude(prompt))) || Rag.Generate(b, prompt) == Some(sentinel)
  {
  }

  /** A session item of the `DocQASessions` table: the `filename` and `s3_key` attributes. */
  datatype SessionItem = SessionItem(filename: Option<string>, indexKey: Option<string>)

  /** The index object read back from S3: `texts` and `embeddings`, each possibly missing. */
  datatype StoredIndex = StoredIndex(texts: Option<seq<string>>, embeddings: Option<seq<Rag.Vec>>)

  /** The body of the response of `ask`: status 200 with an answer, or status 500 with an error. */
  datatype Reply =
    | Answered(answer: string, usedDocument: bool, filename: Option<string>, model: string)
    | Error(message: string)
  {
    function StatusCode(): int {
      if Answered? then 200 else 500
    }
  }

  const ModelName: string := "bedrock-titan"
  const SessionNotFound: string := "Session not found or expired"
  const IndexNotFound: string := "Index not found for session"

  /** A string attribute that is present and not empty. */
  predicate Given(s: Option<string>) {
    s.Some? && s.value != []
  }

  function OrEmpty<T>(xs: Option<seq<T>>): seq<T> {
    if xs.Some? then xs.value else []
  }

  /** The reply of `ask` on the document path, once the question has passed its checks. */
  function DocumentReply(b: Rag.Bedrock, angle: (Rag.Vec, Rag.Vec) -> real, question: string,
                         item: Option<SessionItem>, stored: StoredIndex): Reply {
    if item.None? then Error(SessionNotFound)
    else if !Given(item.value.indexKey) then Error(IndexNotFound)
    else
      var ranked := AskRanked(b, angle, question, OrEmpty(stored.texts), OrEmpty(stored.embeddings));
      if ranked.Failure? then Error(ranked.error)
      else Answered(AnswerOr(b, AskPrompt(ranked.value, question), DocumentSentinel), true, item.value.filename, ModelName)
  }

  /** The reply of `ask` for a question, a session id, and what DynamoDB and S3 hold for it. */
  function AskReply(b: Rag.Bedrock, angle: (Rag.Vec, Rag.Vec) -> real, rawQuestion: Option<string>,
                    sessionId: Option<string>, item: Option<SessionItem>, stored: StoredIndex): Reply {
    var v := ValidateQuestion(rawQuestion);
    if v.Failure? then Error(v.error)
    else if Given(sessionId) then DocumentReply(b, angle, v.value, item, stored)
    else Answered(AnswerOr(b, v.value, GeneralSentinel), false, None, ModelName)
  }

  /** The question checks come first: a bad question is refused whatever the session. */
  lemma AskChecksQuestionFirst(b: Rag.Bedrock, angle: (Rag.Vec, Rag.Vec) -> real, rawQuestion: Option<string>,
                               sessionId: Option<string>, item: Option<SessionItem>, stored: StoredIndex)
    requires ValidateQuestion(rawQuestion).Failure?
    ensures AskReply(b, angle, rawQuestion, sessionId, item, stored) == Error(ValidateQuestion(rawQuestion).error)
    ensures AskReply(b, angle, rawQuestion, sessionId, item, stored).StatusCode() == 500
  {
  }

  /** Without a session id the question itself is the prompt, and no document is used. */
  lemma AskGeneral(b: Rag.Bedrock, angle: (Rag.Vec, Rag.Vec) -> real, question: string,
                   sessionId: Option<string>, item: Option<SessionItem>, stored: StoredIndex)
    requires ValidateQuestion(Some(question)).Success? && !Given(sessionId)
    ensures var r := AskReply(b, angle, Some(question), sessionId, item, stored);
      && r.Answered? && !r.usedDocument && r.StatusCode() == 200
      && r == Answered(AnswerOr(b, Strip(question), GeneralSentinel), false, None, ModelName)
  {
  }

  /**
   * With a session whose index holds one embedding per text, `ask` answers
   * from a prompt holding exactly `min(3, len(texts))` of the stored texts.
   */
  lemma AskDocument(b: Rag.Bedrock, angle: (Rag.Vec, Rag.Vec) -> real, question: string, sessionId: string,
                    item: SessionItem, texts: seq<string>, embeddings: seq<Rag.Vec>)
    requires ValidateQuestion(Some(question)).Success? && sessionId != []
    requires Given(item.indexKey) && |embeddings| == |texts|
    ensures AskRanked(b, angle, Strip(question), texts, embeddings).Success?
    ensures var q := Strip(question);
      var r := AskReply(b, angle, Some(question), Some(sessionId), Some(item), StoredIndex(Some(texts), Some(embeddings)));
      var rk := AskRanked(b, angle, q, texts, embeddings);
      && rk.Success?
      && r.Answered? && r.usedDocument && r.filename == item.filename
      && |rk.value| == (if |texts| < AskTopK then |texts| else AskTopK)
      && r.answer == AnswerOr(b, AskPrompt(rk.value, q), DocumentSentinel)
  {
    var q := Strip(question);
    assert ValidateQuestion(Some(question)) == Success(q);
    AskRankedCount(b, angle, q, texts, embeddings);
    var stored := StoredIndex(Some(texts), Some(embeddings));
    assert OrEmpty(stored.texts) == texts && OrEmpty(stored.embeddings) == embeddings;
    assert AskReply(b, angle, Some(question), Some(sessionId), Some(item), stored)
        == DocumentReply(b, angle, q, Some(item), stored);
  }

  /** `ask(event, context)` from the parsed body on. */
  method Ask(b: Rag.Bedrock, angle: (Rag.Vec, Rag.Vec) -> real, rawQuestion: Option<string>,
             sessionId: Option<string>, item: Option<SessionItem>, stored: StoredIndex) returns (reply: Reply)
    ensures reply == AskReply(b, angle, rawQuestion, sessionId, item, stored)
  {
    var question := Strip(if rawQuestion.Some? then rawQuestion.value else "");
    if question == [] {
      return Error(EmptyQuestion);
    }
    if |question| > MaxQuestionLength {
      return Error(QuestionTooLong);
    }
    if sessionId.Some? && sessionId.value != [] {
      if item.None? {
        return Error(SessionNotFound);
      }
      var indexKey := item.value.indexKey;
      if !(indexKey.Some? && indexKey.value != []) {
        return Error(IndexNotFound);
      }
      var texts := if stored.texts.Some? then stored.texts.value else [];
      var embeddings := if stored.embeddings.Some? then stored.embeddings.value else [];
      var ranked := RankForAsk(b, angle, question, texts, embeddings);
      if ranked.Failure? {
        return Error(ranked.error);
      }
      var prompt := AskPrompt(ranked.value, question);
      var answer := b.titan(prompt);
      if !(answer.Some? && answer.value != []) {
        answer := b.claude(prompt);
      }
      var text := if answer.Some? && answer.value != [] then answer.value else DocumentSentinel;
      return Answered(text, true, item.value.filename, ModelName);
    } else {
      var answer := b.titan(question);
      if !(answer.Some? && answer.value != []) {
        answer := b.claude(question);
      }
      var text := if answer.Some? && answer.value != [] then answer.value else GeneralSentinel;
      return Answered(text, false, None, ModelName);
    }
  }
}
