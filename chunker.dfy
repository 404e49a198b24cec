/**
 * The sentence chunker of `BedrockRAG._split_text`: split on runs of `.`, `!`
 * and `?`, strip the pieces, drop blank ones, and greedily pack the sentences
 * (each followed by ". ") into chunks while the running chunk plus the next
 * sentence stays strictly below the chunk size.
 *
 * The packing is specified by `Pack`, a function on the list of sentences that
 * returns the groups of sentences forming each chunk; `SplitText` is the loop
 * of `_split_text`, proved to produce the chunks `Pack` describes.
 */
module Chunker {
  import opened Text

  /** `self.chunk_size` of the `BedrockRAG` instance. */
  const ChunkSize: nat := 800

  /** A chunk record, the dictionary `{"page_content": text}`. */
  datatype Chunk = Chunk(pageContent: string)

  predicate IsTerminator(c: char) {
    c == '.' || c == '!' || c == '?'
  }

  predicate NoTerminator(s: string) {
    forall k :: 0 <= k < |s| ==> !IsTerminator(s[k])
  }

  /** The first terminator at or after `from`, or `|t|` when there is none. */
  function NextTerminator(t: string, from: nat): (i: nat)
    requires from <= |t|
    ensures from <= i <= |t|
    ensures i < |t| ==> IsTerminator(t[i])
    ensures forall k :: from <= k < i ==> !IsTerminator(t[k])
    decreases |t| - from
  {
    if from == |t| || IsTerminator(t[from]) then from else NextTerminator(t, from + 1)
  }

  /** The end of the run of terminators that starts at `from`. */
  function EndOfRun(t: string, from: nat): (j: nat)
    requires from <= |t|
    ensures from <= j <= |t|
    ensures j < |t| ==> !IsTerminator(t[j])
    ensures forall k :: from <= k < j ==> IsTerminator(t[k])
    decreases |t| - from
  {
    if from == |t| || !IsTerminator(t[from]) then from else EndOfRun(t, from + 1)
  }

  /**
   * `re.split(r'[.!?]+', t)`: the pieces of `t` between maximal runs of
   * terminators, including the empty piece before a leading run or after a
   * trailing one.
   */
  function SplitOnTerminators(t: string): (pieces: seq<string>)
    ensures pieces != []
    ensures forall p :: p in pieces ==> NoTerminator(p)
    decreases |t|
  {
    var i := NextTerminator(t, 0);
    if i == |t| then
      [t]
    else
      var j := EndOfRun(t, i);
      [t[..i]] + SplitOnTerminators(t[j..])
  }

  /** `t` with every terminator character deleted. */
  function RemoveTerminators(t: string): string
    decreases |t|
  {
    if t == [] then [] else (if IsTerminator(t[0]) then [] else [t[0]]) + RemoveTerminators(t[1..])
  }

  function Flatten(xs: seq<string>): string
    decreases |xs|
  {
    if xs == [] then [] else xs[0] + Flatten(xs[1..])
  }

  lemma {:induction false} RemoveTerminatorsAppend(a: string, b: string)
    ensures RemoveTerminators(a + b) == RemoveTerminators(a) + RemoveTerminators(b)
    decreases |a|
  {
    if a != [] {
      assert (a + b)[1..] == a[1..] + b;
      RemoveTerminatorsAppend(a[1..], b);
    } else {
      assert a + b == b;
    }
  }

  lemma {:induction false} RemoveTerminatorsKeep(a: string)
    requires NoTerminator(a)
    ensures RemoveTerminators(a) == a
    decreases |a|
  {
    if a != [] {
      RemoveTerminatorsKeep(a[1..]);
      assert [a[0]] + a[1..] == a;
    }
  }

  lemma {:induction false} RemoveTerminatorsDrop(a: string)
    requires AllTerminators(a)
    ensures RemoveTerminators(a) == []
    decreases |a|
  {
    if a != [] {
      RemoveTerminatorsDrop(a[1..]);
    }
  }

  lemma FlattenCons(x: string, xs: seq<string>)
    ensures Flatten([x] + xs) == x + Flatten(xs)
  {
    assert ([x] + xs)[1..] == xs;
  }

  predicate AllTerminators(s: string) {
    forall k :: 0 <= k < |s| ==> IsTerminator(s[k])
  }

  lemma RemoveTerminatorsAround(a: string, b: string, c: string)
    requires NoTerminator(a) && AllTerminators(b)
    ensures RemoveTerminators(a + b + c) == a + RemoveTerminators(c)
  {
    calc {
      RemoveTerminators(a + b + c);
      { assert a + b + c == a + (b + c); }
      RemoveTerminators(a + (b + c));
      { RemoveTerminatorsAppend(a, b + c); }
      RemoveTerminators(a) + RemoveTerminators(b + c);
      { RemoveTerminatorsAppend(b, c); }
      RemoveTerminators(a) + (RemoveTerminators(b) + RemoveTerminators(c));
      { RemoveTerminatorsDrop(b); assert [] + RemoveTerminators(c) == RemoveTerminators(c); }
      RemoveTerminators(a) + RemoveTerminators(c);
      { RemoveTerminatorsKeep(a); }
      a + RemoveTerminators(c);
    }
  }

  /** Splitting loses nothing but the terminators: the pieces put back together are the text without them. */
  lemma {:induction false} SplitKeepsText(t: string)
    ensures Flatten(SplitOnTerminators(t)) == RemoveTerminators(t)
    decreases |t|
  {
    var i := NextTerminator(t, 0);
    if i == |t| {
      assert t[..i] == t;
      RemoveTerminatorsAround(t, [], []);
      assert t + [] + [] == t;
      FlattenCons(t, []);
    } else {
      var j := EndOfRun(t, i);
      var a, b, c := t[..i], t[i..j], t[j..];
      assert a + b + c == t;
      var rest := SplitOnTerminators(c);
      assert SplitOnTerminators(t) == [a] + rest;
      FlattenCons(a, rest);
      SplitKeepsText(c);
      assert NoTerminator(a) by {
        forall k | 0 <= k < |a| ensures !IsTerminator(a[k]) { assert a[k] == t[k]; }
      }
      assert AllTerminators(b) by {
        forall k | 0 <= k < |b| ensures IsTerminator(b[k]) { assert b[k] == t[i + k]; }
      }
      RemoveTerminatorsAround(a, b, c);
    }
  }

  /** A text without terminators is a single piece. */
  lemma SplitNoTerminator(a: string)
    requires NoTerminator(a)
    ensures SplitOnTerminators(a) == [a]
  {
    assert NextTerminator(a, 0) == |a|;
  }

  /**
   * A maximal run of terminators after a text without terminators is the first
   * cut: the text before it is the first piece and splitting goes on after it.
   */
  lemma SplitAtRun(a: string, r: string, b: string)
    requires NoTerminator(a) && r != [] && AllTerminators(r)
    requires b == [] || !IsTerminator(b[0])
    ensures SplitOnTerminators(a + r + b) == [a] + SplitOnTerminators(b)
  {
    var t := a + r + b;
    assert forall k :: 0 <= k < |a| ==> t[k] == a[k];
    assert t[|a|] == r[0];
    var i := NextTerminator(t, 0);
    assert i == |a|;
    assert forall k :: |a| <= k < |a| + |r| ==> t[k] == r[k - |a|];
    assert b != [] ==> t[|a| + |r|] == b[0];
    var j := EndOfRun(t, i);
    assert j == |a| + |r|;
    assert t[..i] == a && t[j..] == b;
  }

  /** Two sentences: the pieces are cut at the terminator, and the space stays with the second. */
  lemma SplitExample()
    ensures SplitOnTerminators("Hi. Yes") == ["Hi", " Yes"]
  {
    var a, r, b := "Hi", ".", " Yes";
    assert NoTerminator(a) && AllTerminators(r) && !IsTerminator(b[0]);
    assert NoTerminator(b);
    assert "Hi. Yes" == a + r + b;
    SplitAtRun(a, r, b);
    SplitNoTerminator(b);
  }

  /** Stripping then removes the space from the second sentence. */
  lemma SentencesExample()
    ensures Sentences("Hi. Yes") == ["Hi", "Yes"]
  {
    SplitExample();
    var pieces := ["Hi", " Yes"];
    StripTrimmed(pieces[0]);
    assert pieces[1] == " " + "Yes" + "";
    StripAround(" ", "Yes", "");
    NonBlankStep(pieces, 0);
    NonBlankStep(pieces, 1);
    assert pieces[0..] == pieces && pieces[2..] == [];
  }

  /** A sentence as the chunker keeps it: stripped and not blank. */
  predicate IsSentence(s: string) {
    s != [] && Trimmed(s)
  }

  predicate AllSentences(g: seq<string>) {
    forall i :: 0 <= i < |g| ==> IsSentence(g[i])
  }

  /** The stripped pieces that are not blank, in order (the `continue` of the loop). */
  function NonBlank(pieces: seq<string>): (sentences: seq<string>)
    ensures AllSentences(sentences)
    decreases |pieces|
  {
    if pieces == [] then []
    else
      var s := Strip(pieces[0]);
      var rest := NonBlank(pieces[1..]);
      var r := (if s == [] then [] else [s]) + rest;
      assert forall i :: 0 <= i < |r| ==> IsSentence(r[i]) by {
        forall i | 0 <= i < |r| ensures IsSentence(r[i]) {
          if s != [] && i > 0 { assert r[i] == rest[i - 1]; }
        }
      }
      r
  }

  /** The sentences `_split_text` packs, in order. */
  function Sentences(text: string): seq<string> {
    NonBlank(SplitOnTerminators(text))
  }

  /** The running `current_chunk` string after appending each sentence of `g` with ". ". */
  function RawRender(g: seq<string>): string
    decreases |g|
  {
    if g == [] then "" else RawRender(g[..|g| - 1]) + g[|g| - 1] + ". "
  }

  function Dotted(g: seq<string>): (d: seq<string>)
    ensures |d| == |g|
    ensures forall i :: 0 <= i < |g| ==> d[i] == g[i] + "."
  {
    seq(|g|, i requires 0 <= i < |g| => g[i] + ".")
  }

  /** The text of the chunk made of the sentences `g`: each sentence with ".", separated by one blank. */
  function Render(g: seq<string>): string {
    JoinWith(" ", Dotted(g))
  }

  /**
   * The greedy packing: `rest` are the sentences still to read, `cur` the
   * sentences of the running chunk and `done` the chunks already emitted.
   */
  function PackFrom(rest: seq<string>, cur: seq<string>, done: seq<seq<string>>, size: nat): seq<seq<string>>
    decreases |rest|
  {
    if rest == [] then
      (if cur == [] then done else done + [cur])
    else if |RawRender(cur)| + |rest[0]| < size then
      PackFrom(rest[1..], cur + [rest[0]], done, size)
    else
      PackFrom(rest[1..], [rest[0]], if cur == [] then done else done + [cur], size)
  }

  /** The groups of sentences that form the chunks. */
  function Pack(sentences: seq<string>, size: nat): seq<seq<string>> {
    PackFrom(sentences, [], [], size)
  }

  /** The chunk texts `_split_text` returns for `text`, in order. */
  function ChunkTexts(text: string): (chunks: seq<string>)
    ensures |chunks| == |Pack(Sentences(text), ChunkSize)|
  {
    Renders(Pack(Sentences(text), ChunkSize))
  }

  function Concat(groups: seq<seq<string>>): seq<string>
    decreases |groups|
  {
    if groups == [] then [] else Concat(groups[..|groups| - 1]) + groups[|groups| - 1]
  }

  // ---------------------------------------------------------------------------
  // Rendering

  lemma RawRenderSnoc(g: seq<string>, s: string)
    ensures RawRender(g + [s]) == RawRender(g) + s + ". "
  {
    assert (g + [s])[..|g|] == g;
  }

  lemma {:induction false} RawRenderIsRender(g: seq<string>)
    requires g != []
    ensures RawRender(g) == Render(g) + " "
    decreases |g|
  {
    var g' := g[..|g| - 1];
    if |g| == 1 {
      assert RawRender(g') == "";
    } else {
      RawRenderIsRender(g');
      assert Dotted(g)[..|g| - 1] == Dotted(g');
    }
  }

  lemma {:induction false} RenderEnds(g: seq<string>)
    requires g != [] && AllSentences(g)
    ensures Render(g) != [] && Render(g)[0] == g[0][0] && Render(g)[|Render(g)| - 1] == '.'
    decreases |g|
  {
    assert IsSentence(g[0]);
    if |g| > 1 {
      var g' := g[..|g| - 1];
      assert Dotted(g)[..|g| - 1] == Dotted(g');
      assert g'[0] == g[0];
      RenderEnds(g');
    }
  }

  /** A chunk text is non-empty, has no surrounding whitespace and ends with ".". */
  lemma RenderTrimmed(g: seq<string>)
    requires g != [] && AllSentences(g)
    ensures Render(g) != [] && Trimmed(Render(g)) && Render(g)[|Render(g)| - 1] == '.'
  {
    RenderEnds(g);
    assert IsSentence(g[0]);
  }

  /** `current_chunk.strip()` of a running chunk is its rendering. */
  lemma FlushedChunk(g: seq<string>)
    requires g != [] && AllSentences(g)
    ensures Strip(RawRender(g)) == Render(g)
  {
    RawRenderIsRender(g);
    RenderTrimmed(g);
    StripTrailingBlank(Render(g));
  }

  lemma {:induction false} RawRenderLength(g: seq<string>, j: nat)
    requires j < |g| && AllSentences(g)
    ensures |RawRender(g)| >= |g[j]| + 2 + 3 * (|g| - 1)
    decreases |g|
  {
    var g' := g[..|g| - 1];
    assert IsSentence(g[|g| - 1]);
    if j < |g| - 1 {
      assert g'[j] == g[j];
      RawRenderLength(g', j);
    } else if |g| > 1 {
      assert g'[0] == g[0];
      RawRenderLength(g', 0);
    }
  }

  // ---------------------------------------------------------------------------
  // Properties of the packing

  lemma ConcatSnoc(groups: seq<seq<string>>, g: seq<string>)
    ensures Concat(groups + [g]) == Concat(groups) + g
  {
    assert (groups + [g])[..|groups|] == groups;
  }

  lemma {:induction false} PackFromConcat(rest: seq<string>, cur: seq<string>, done: seq<seq<string>>, size: nat)
    ensures Concat(PackFrom(rest, cur, done, size)) == Concat(done) + cur + rest
    decreases |rest|
  {
    if rest == [] {
      if cur != [] { ConcatSnoc(done, cur); }
    } else {
      var s, tail := rest[0], rest[1..];
      assert rest == [s] + tail;
      var before := Concat(done);
      if |RawRender(cur)| + |s| < size {
        PackFromConcat(tail, cur + [s], done, size);
        SplitAfter(before, cur, s, tail);
      } else {
        var done' := if cur == [] then done else done + [cur];
        if cur != [] { ConcatSnoc(done, cur); }
        PackFromConcat(tail, [s], done', size);
        assert Concat(done') == before + cur;
        SplitAfter(before, cur, s, tail);
      }
    }
  }

  /** Where the boundary between two groups falls does not change their concatenation. */
  lemma SplitAfter(a: seq<string>, b: seq<string>, s: string, t: seq<string>)
    ensures a + (b + [s]) + t == a + b + ([s] + t)
    ensures (a + b) + [s] + t == a + b + ([s] + t)
  {
  }

  /** Nothing is lost, duplicated or reordered: the groups put together are the sentences. */
  lemma PackConcat(sentences: seq<string>, size: nat)
    ensures Concat(Pack(sentences, size)) == sentences
  {
    PackFromConcat(sentences, [], [], size);
  }

  /** A chunk of two or more sentences is at most `size + 1` characters before the final strip. */
  predicate Bounded(g: seq<string>, size: nat) {
    |g| >= 2 ==> |RawRender(g)| <= size + 1
  }

  /** Every group is non-empty and bounded. */
  predicate WellPacked(groups: seq<seq<string>>, size: nat) {
    forall i :: 0 <= i < |groups| ==> groups[i] != [] && Bounded(groups[i], size)
  }

  lemma WellPackedSnoc(groups: seq<seq<string>>, g: seq<string>, size: nat)
    requires WellPacked(groups, size) && g != [] && Bounded(g, size)
    ensures WellPacked(groups + [g], size)
  {
    forall i | 0 <= i < |groups| + 1 ensures (groups + [g])[i] != [] && Bounded((groups + [g])[i], size) {
      if i < |groups| { assert (groups + [g])[i] == groups[i]; }
    }
  }

  lemma {:induction false} PackFromShape(rest: seq<string>, cur: seq<string>, done: seq<seq<string>>, size: nat)
    requires WellPacked(done, size) && Bounded(cur, size)
    ensures WellPacked(PackFrom(rest, cur, done, size), size)
    decreases |rest|
  {
    if rest == [] {
      if cur != [] { WellPackedSnoc(done, cur, size); }
    } else {
      var s := rest[0];
      if |RawRender(cur)| + |s| < size {
        RawRenderSnoc(cur, s);
        PackFromShape(rest[1..], cur + [s], done, size);
      } else {
        if cur != [] { WellPackedSnoc(done, cur, size); }
        var done' := if cur == [] then done else done + [cur];
        PackFromShape(rest[1..], [s], done', size);
      }
    }
  }

  /** Every chunk is made of at least one sentence and obeys the length bound. */
  lemma PackShape(sentences: seq<string>, size: nat)
    ensures WellPacked(Pack(sentences, size), size)
  {
    PackFromShape(sentences, [], [], size);
  }

  /** Between two consecutive chunks, the first sentence of the second did not fit into the first. */
  predicate GreedyCuts(groups: seq<seq<string>>, size: nat) {
    forall i :: 1 <= i < |groups| ==> groups[i] != [] && |RawRender(groups[i - 1])| + |groups[i][0]| >= size
  }

  lemma GreedySnoc(groups: seq<seq<string>>, g: seq<string>, size: nat)
    requires GreedyCuts(groups, size) && g != []
    requires groups != [] ==> |RawRender(groups[|groups| - 1])| + |g[0]| >= size
    ensures GreedyCuts(groups + [g], size)
  {
    var gs := groups + [g];
    forall i | 1 <= i < |gs| ensures gs[i] != [] && |RawRender(gs[i - 1])| + |gs[i][0]| >= size {
      if i < |groups| { assert gs[i] == groups[i] && gs[i - 1] == groups[i - 1]; }
    }
  }

  lemma {:induction false} PackFromGreedy(rest: seq<string>, cur: seq<string>, done: seq<seq<string>>, size: nat)
    requires GreedyCuts(done, size)
    requires done != [] ==> cur != [] && |RawRender(done[|done| - 1])| + |cur[0]| >= size
    ensures GreedyCuts(PackFrom(rest, cur, done, size), size)
    decreases |rest|
  {
    if rest == [] {
      if cur != [] { GreedySnoc(done, cur, size); }
    } else {
      var s := rest[0];
      if |RawRender(cur)| + |s| < size {
        assert cur != [] ==> (cur + [s])[0] == cur[0];
        PackFromGreedy(rest[1..], cur + [s], done, size);
      } else if cur == [] {
        PackFromGreedy(rest[1..], [s], done, size);
      } else {
        GreedySnoc(done, cur, size);
        PackFromGreedy(rest[1..], [s], done + [cur], size);
      }
    }
  }

  /** The packing is greedy: no chunk could have taken the first sentence of the next one. */
  lemma PackIsGreedy(sentences: seq<string>, size: nat)
    ensures GreedyCuts(Pack(sentences, size), size)
  {
    PackFromGreedy(sentences, [], [], size);
  }

  lemma {:induction false} InConcat(groups: seq<seq<string>>, x: string)
    requires x in Concat(groups)
    ensures exists i, j :: 0 <= i < |groups| && 0 <= j < |groups[i]| && groups[i][j] == x
    decreases |groups|
  {
    var n := |groups|;
    var front := groups[..n - 1];
    assert Concat(groups) == Concat(front) + groups[n - 1];
    if x in groups[n - 1] {
      var j :| 0 <= j < |groups[n - 1]| && groups[n - 1][j] == x;
    } else {
      InConcat(front, x);
      var i, j :| 0 <= i < n - 1 && 0 <= j < |front[i]| && front[i][j] == x;
      assert groups[i][j] == x;
    }
  }

  lemma {:induction false} GroupsAreSentences(groups: seq<seq<string>>)
    requires AllSentences(Concat(groups))
    ensures forall i :: 0 <= i < |groups| ==> AllSentences(groups[i])
    decreases |groups|
  {
    if groups != [] {
      var n := |groups|;
      var front := groups[..n - 1];
      var c := Concat(groups);
      var cf := Concat(front);
      assert c == cf + groups[n - 1];
      assert AllSentences(cf) by {
        forall k | 0 <= k < |cf| ensures IsSentence(cf[k]) { assert cf[k] == c[k]; }
      }
      var last := groups[n - 1];
      assert AllSentences(last) by {
        forall k | 0 <= k < |last| ensures IsSentence(last[k]) { assert last[k] == c[|cf| + k]; }
      }
      GroupsAreSentences(front);
      forall i | 0 <= i < n ensures AllSentences(groups[i]) {
        if i < n - 1 { assert groups[i] == front[i]; }
      }
    }
  }

  lemma {:induction false} ConcatNonEmpty(groups: seq<seq<string>>)
    requires groups != [] && groups[0] != []
    ensures Concat(groups) != []
    decreases |groups|
  {
    if |groups| > 1 {
      ConcatNonEmpty(groups[..|groups| - 1]);
    }
  }

  /** The rendering of each group. */
  function Renders(groups: seq<seq<string>>): (rs: seq<string>)
    ensures |rs| == |groups|
    ensures forall i :: 0 <= i < |groups| ==> rs[i] == Render(groups[i])
  {
    seq(|groups|, i requires 0 <= i < |groups| => Render(groups[i]))
  }

  lemma RendersFront(groups: seq<seq<string>>)
    requires groups != []
    ensures Renders(groups) == Renders(groups[..|groups| - 1]) + [Render(groups[|groups| - 1])]
  {
  }

  lemma DottedAppend(g: seq<string>, h: seq<string>)
    ensures Dotted(g + h) == Dotted(g) + Dotted(h)
  {
  }

  lemma {:induction false} JoinRendered(groups: seq<seq<string>>)
    requires forall i :: 0 <= i < |groups| ==> groups[i] != []
    ensures JoinWith(" ", Renders(groups)) == JoinWith(" ", Dotted(Concat(groups)))
    decreases |groups|
  {
    var n := |groups|;
    if n == 1 {
      assert groups[..0] == [];
      assert Concat(groups) == groups[0];
      assert Renders(groups) == [Render(groups[0])];
    } else if n > 1 {
      var front := groups[..n - 1];
      var last := groups[n - 1];
      calc {
        JoinWith(" ", Renders(groups));
        { RendersFront(groups); }
        JoinWith(" ", Renders(front) + [Render(last)]);
        { JoinWithAppend(" ", Renders(front), [Render(last)]); }
        JoinWith(" ", Renders(front)) + " " + JoinWith(" ", [Render(last)]);
        { JoinRendered(front); }
        JoinWith(" ", Dotted(Concat(front))) + " " + JoinWith(" ", Dotted(last));
        { ConcatNonEmpty(front); JoinWithAppend(" ", Dotted(Concat(front)), Dotted(last)); }
        JoinWith(" ", Dotted(Concat(front)) + Dotted(last));
        { DottedAppend(Concat(front), last); }
        JoinWith(" ", Dotted(Concat(front) + last));
      }
    }
  }

  // ---------------------------------------------------------------------------
  // What `_split_text` promises

  /** Every chunk is non-empty, has no surrounding whitespace and ends with ".". */
  lemma ChunksWellFormed(text: string)
    ensures forall c :: c in ChunkTexts(text) ==> c != [] && Trimmed(c) && c[|c| - 1] == '.'
  {
    var sentences := Sentences(text);
    var groups := Pack(sentences, ChunkSize);
    PackShape(sentences, ChunkSize);
    PackConcat(sentences, ChunkSize);
    GroupsAreSentences(groups);
    forall c | c in ChunkTexts(text) ensures c != [] && Trimmed(c) && c[|c| - 1] == '.' {
      var i :| 0 <= i < |groups| && c == ChunkTexts(text)[i];
      RenderTrimmed(groups[i]);
    }
  }

  /**
   * Order is kept and nothing is dropped or duplicated: the chunks joined with
   * single blanks are the sentences, each followed by ".", joined with single blanks.
   */
  lemma ChunksPreserveSentences(text: string)
    ensures JoinWith(" ", ChunkTexts(text)) == JoinWith(" ", Dotted(Sentences(text)))
  {
    var sentences := Sentences(text);
    PackShape(sentences, ChunkSize);
    JoinRendered(Pack(sentences, ChunkSize));
    PackConcat(sentences, ChunkSize);
  }

  /** A chunk built from two or more sentences is at most `chunk_size` characters long. */
  lemma MultiSentenceChunkBound(text: string, i: nat)
    requires i < |Pack(Sentences(text), ChunkSize)|
    requires |Pack(Sentences(text), ChunkSize)[i]| >= 2
    ensures |ChunkTexts(text)[i]| <= ChunkSize
  {
    var groups := Pack(Sentences(text), ChunkSize);
    PackShape(Sentences(text), ChunkSize);
    assert groups[i] != [] && Bounded(groups[i], ChunkSize);
    RawRenderIsRender(groups[i]);
  }

  lemma LongSentenceAlone(g: seq<string>, j: nat, size: nat)
    requires j < |g| && AllSentences(g) && Bounded(g, size) && |g[j]| >= size
    ensures g == [g[j]]
  {
    if |g| >= 2 {
      RawRenderLength(g, j);
      assert false;
    }
  }

  /** A sentence of `chunk_size` characters or more is a chunk of its own, untruncated. */
  lemma LongSentenceOwnChunk(text: string, s: string)
    requires s in Sentences(text) && |s| >= ChunkSize
    ensures s + "." in ChunkTexts(text)
  {
    var sentences := Sentences(text);
    var groups := Pack(sentences, ChunkSize);
    PackShape(sentences, ChunkSize);
    PackConcat(sentences, ChunkSize);
    GroupsAreSentences(groups);
    InConcat(groups, s);
    var i, j :| 0 <= i < |groups| && 0 <= j < |groups[i]| && groups[i][j] == s;
    LongSentenceAlone(groups[i], j, ChunkSize);
    assert Dotted([s]) == [s + "."];
    assert ChunkTexts(text)[i] == s + ".";
  }

  /** Text with no non-blank piece between terminators gives no chunk, and any other text gives some chunk. */
  lemma NoSentenceNoChunk(text: string)
    ensures ChunkTexts(text) == [] <==> Sentences(text) == []
  {
    var sentences := Sentences(text);
    PackConcat(sentences, ChunkSize);
    if Pack(sentences, ChunkSize) == [] {
      assert Concat([]) == [];
    }
  }

  /** The empty text and a text of terminators only, such as "..!?", give no chunk. */
  lemma BlankExamples()
    ensures ChunkTexts("") == []
    ensures ChunkTexts("..!?") == []
  {
    assert SplitOnTerminators("") == [""];
    assert Sentences("") == [];
    NoSentenceNoChunk("");
    var t := "..!?";
    assert NextTerminator(t, 0) == 0;
    assert EndOfRun(t, 0) == 4;
    assert t[4..] == "";
    assert SplitOnTerminators(t) == [""] + SplitOnTerminators("");
    assert Sentences(t) == [];
    NoSentenceNoChunk(t);
  }

  // ---------------------------------------------------------------------------
  // The loop of `_split_text`

  lemma NonBlankStep(pieces: seq<string>, i: nat)
    requires i < |pieces|
    ensures NonBlank(pieces[i..]) == (if Strip(pieces[i]) == [] then [] else [Strip(pieces[i])]) + NonBlank(pieces[i + 1..])
  {
    assert pieces[i..][1..] == pieces[i + 1..];
  }

  /** One turn of the loop of `_split_text` on a piece that is blank. */
  lemma StepBlank(pieces: seq<string>, i: nat)
    requires i < |pieces| && Strip(pieces[i]) == []
    ensures NonBlank(pieces[i..]) == NonBlank(pieces[i + 1..])
  {
    NonBlankStep(pieces, i);
  }

  /** One turn of the loop on a sentence that still fits into the running chunk. */
  lemma StepFits(pieces: seq<string>, i: nat, cur: seq<string>, done: seq<seq<string>>, size: nat)
    requires i < |pieces| && Strip(pieces[i]) != [] && AllSentences(cur)
    requires |RawRender(cur)| + |Strip(pieces[i])| < size
    ensures var s := Strip(pieces[i]);
      && PackFrom(NonBlank(pieces[i..]), cur, done, size) == PackFrom(NonBlank(pieces[i + 1..]), cur + [s], done, size)
      && RawRender(cur + [s]) == RawRender(cur) + s + ". "
      && AllSentences(cur + [s])
  {
    var s := Strip(pieces[i]);
    NonBlankStep(pieces, i);
    var rest := NonBlank(pieces[i..]);
    assert rest[0] == s && rest[1..] == NonBlank(pieces[i + 1..]);
    RawRenderSnoc(cur, s);
  }

  /** One turn of the loop on a sentence that does not fit: the running chunk is emitted and a new one starts. */
  lemma StepCuts(pieces: seq<string>, i: nat, cur: seq<string>, done: seq<seq<string>>, size: nat)
    requires i < |pieces| && Strip(pieces[i]) != [] && AllSentences(cur)
    requires |RawRender(cur)| + |Strip(pieces[i])| >= size
    ensures var s := Strip(pieces[i]);
      && PackFrom(NonBlank(pieces[i..]), cur, done, size)
         == PackFrom(NonBlank(pieces[i + 1..]), [s], if cur == [] then done else done + [cur], size)
      && RawRender([s]) == s + ". "
      && AllSentences([s])
      && (RawRender(cur) == "" <==> cur == [])
      && (cur != [] ==> Strip(RawRender(cur)) == Render(cur))
  {
    var s := Strip(pieces[i]);
    NonBlankStep(pieces, i);
    var rest := NonBlank(pieces[i..]);
    assert rest[0] == s && rest[1..] == NonBlank(pieces[i + 1..]);
    RawRenderSnoc([], s);
    if cur != [] {
      FlushedChunk(cur);
      RawRenderIsRender(cur);
    }
  }

  /** The chunk records for the groups `groups`. */
  function ChunksOf(groups: seq<seq<string>>): (chunks: seq<Chunk>)
    ensures |chunks| == |groups|
  {
    seq(|groups|, i requires 0 <= i < |groups| => Chunk(Render(groups[i])))
  }

  lemma ChunksOfSnoc(groups: seq<seq<string>>, g: seq<string>)
    ensures ChunksOf(groups + [g]) == ChunksOf(groups) + [Chunk(Render(g))]
  {
  }

  /** `BedrockRAG._split_text(text)`. */
  method SplitText(text: string) returns (chunks: seq<Chunk>)
    ensures |chunks| == |ChunkTexts(text)|
    ensures forall i :: 0 <= i < |chunks| ==> chunks[i].pageContent == ChunkTexts(text)[i]
  {
    var sentences := SplitOnTerminators(text);
    ghost var target := Pack(Sentences(text), ChunkSize);
    chunks := [];
    var current := "";
    ghost var cur: seq<string> := [];
    ghost var done: seq<seq<string>> := [];
    for i := 0 to |sentences|
      invariant current == RawRender(cur)
      invariant AllSentences(cur)
      invariant chunks == ChunksOf(done)
      invariant PackFrom(NonBlank(sentences[i..]), cur, done, ChunkSize) == target
    {
      var sentence := Strip(sentences[i]);
      if sentence == [] {
        StepBlank(sentences, i);
      } else if |current| + |sentence| < ChunkSize {
        StepFits(sentences, i, cur, done, ChunkSize);
        current := current + sentence + ". ";
        cur := cur + [sentence];
      } else {
        StepCuts(sentences, i, cur, done, ChunkSize);
        if current != "" {
          ChunksOfSnoc(done, cur);
          chunks := chunks + [Chunk(Strip(current))];
          done := done + [cur];
        }
        current := sentence + ". ";
        cur := [sentence];
      }
    }
    assert sentences[|sentences|..] == [];
    if current != "" {
      FlushedChunk(cur);
      ChunksOfSnoc(done, cur);
      chunks := chunks + [Chunk(Strip(current))];
      done := done + [cur];
    } else {
      assert cur == [] by { if cur != [] { RawRenderIsRender(cur); } }
    }
  }
}
