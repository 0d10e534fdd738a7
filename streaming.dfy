/**
 * `simulateStreaming` of the Lambda client: the processed reply is cut into
 * chunks (sentences, or else groups of words) after every math span has been
 * swapped for a numbered placeholder, and each chunk gets its math back.
 */
module LambdaStreaming {
  import opened Wrappers
  import opened Text
  import opened Scan
  import opened Patterns
  import opened Envelope
  import opened Tokens

  // ---------------------------------------------------------------------
  // Math spans and their placeholders

  /** The first `\]` or `\)` starting at or after `j`. */
  function CloserFrom(s: string, j: nat): (k: Option<nat>)
    requires j <= |s|
    ensures k.Some? ==> (j <= k.value && k.value + 2 <= |s| && s[k.value] == '\\'
                         && (s[k.value + 1] == ']' || s[k.value + 1] == ')'))
    decreases |s| - j
  {
    if j + 2 > |s| then None
    else if s[j] == '\\' && (s[j + 1] == ']' || s[j + 1] == ')') then Some(j)
    else CloserFrom(s, j + 1)
  }

  /** Where the math span starting at `i` ends, for the pattern
      `\\[\[\(][\s\S]*?\\[\]\)]|\[MATH\][\s\S]*?\[\/MATH\]|\$.*?\$`. The three
      alternatives start with different characters, so at most one applies. */
  function MathSpanEnd(s: string, i: nat): (e: Option<nat>)
    ensures e.Some? ==> i + 2 <= e.value <= |s|
  {
    if i + 1 < |s| && s[i] == '\\' && (s[i + 1] == '[' || s[i + 1] == '(') then
      match CloserFrom(s, i + 2)
      case Some(k) => Some(k + 2)
      case None => None
    else if At(s, i, "[MATH]") then
      match LazyUntil(s, i + 6, "[/MATH]", true)
      case Some(k) => Some(k + 7)
      case None => None
    else if i < |s| && s[i] == '$' then
      match LazyUntil(s, i + 1, "$", false)
      case Some(k) => Some(k + 1)
      case None => None
    else None
  }

  /** The math span at `i`, as a rule whose matches are the spans themselves. */
  const MathSpan: Rule := MathSpanAt

  function MathSpanAt(s: string, i: nat): (h: Option<Hit>)
    ensures h.Some? ==> i + h.value.len <= |s| && h.value.out == s[i..i + h.value.len]
  {
    match MathSpanEnd(s, i)
    case Some(e) => Some(Hit(e - i, s[i..e]))
    case None => None
  }

  // ---------------------------------------------------------------------
  // Sentences

  predicate IsTerminator(c: char) { c == '.' || c == '!' || c == '?' }
  predicate NotTerminator(c: char) { !IsTerminator(c) }

  /** `[^.!?]+[.!?]+` at `i`: a run of other characters, then the whole run of
      terminators after it. */
  function SentenceAt(s: string, i: nat): (h: Option<Hit>)
    ensures h.Some? ==> i < |s| && NotTerminator(s[i]) && i + h.value.len <= |s|
  {
    if i < |s| && NotTerminator(s[i]) then
      var a := RunEnd(s, i, NotTerminator);
      if a < |s| then
        var b := RunEnd(s, a, IsTerminator);
        Some(Hit(b - i, s[i..b]))
      else None
    else None
  }

  const Sentence: Rule := (s: string, i: nat) => SentenceAt(s, i)

  /** `content.match(/[^.!?]+[.!?]+/g) || []` */
  function Sentences(s: string): seq<string> {
    MatchesFrom(s, Sentence, 0)
  }

  /** Just past the last terminator, or 0 when there is none. */
  function LastStop(s: string): (q: nat)
    ensures q <= |s|
    ensures q > 0 ==> IsTerminator(s[q - 1])
    ensures forall k | q <= k < |s| :: NotTerminator(s[k])
  {
    if s == [] then 0
    else if IsTerminator(s[|s| - 1]) then |s|
    else
      var q := LastStop(s[..|s| - 1]);
      assert forall k | q <= k < |s| - 1 :: s[..|s| - 1][k] == s[k];
      q
  }

  /** The sentences, joined, are the content from its first character that
      is not a terminator up to its last terminator: leading terminators and
      the text after the last terminator are never emitted. */
  lemma {:induction false} SentencesSpell(s: string, i: nat)
    requires i <= |s|
    ensures var p := RunEnd(s, i, IsTerminator);
      Concat(MatchesFrom(s, Sentence, i)) == if p < LastStop(s) then s[p..LastStop(s)] else []
    decreases |s| - i
  {
    if i < |s| {
      if IsTerminator(s[i]) {
        SentencesSpell(s, i + 1);
      } else if RunEnd(s, i, NotTerminator) == |s| {
        assert LastStop(s) <= i;
        SentencesSpell(s, i + 1);
      } else {
        var b := SentenceHit(s, i);
        SentencesSpell(s, b);
        SentenceJoin(s, i, b, MatchesFrom(s, Sentence, b));
      }
    }
  }

  /** A sentence starts at `i` and ends at `b`, just past a terminator, where
      no terminator follows directly. */
  lemma SentenceHit(s: string, i: nat) returns (b: nat)
    requires i < |s| && NotTerminator(s[i]) && RunEnd(s, i, NotTerminator) < |s|
    ensures i < b <= LastStop(s) && RunEnd(s, b, IsTerminator) == b && IsTerminator(s[b - 1])
    ensures MatchesFrom(s, Sentence, i) == [s[i..b]] + MatchesFrom(s, Sentence, b)
    ensures RunEnd(s, i, IsTerminator) == i
  {
    b := SentenceEnd(s, i);
    assert Sentence(s, i) == SentenceAt(s, i);
    MatchesAtHit(s, Sentence, i, b);
  }

  lemma SentenceEnd(s: string, i: nat) returns (b: nat)
    requires i < |s| && NotTerminator(s[i]) && RunEnd(s, i, NotTerminator) < |s|
    ensures b == RunEnd(s, RunEnd(s, i, NotTerminator), IsTerminator)
    ensures SentenceAt(s, i) == Some(Hit(b - i, s[i..b]))
    ensures i < b <= LastStop(s) && RunEnd(s, b, IsTerminator) == b && IsTerminator(s[b - 1])
    ensures RunEnd(s, i, IsTerminator) == i
  {
    var a := RunEnd(s, i, NotTerminator);
    b := RunEnd(s, a, IsTerminator);
    assert IsTerminator(s[a]);
    assert IsTerminator(s[b - 1]);
  }

  lemma SentenceJoin(s: string, i: nat, b: nat, rest: seq<string>)
    requires i < b <= LastStop(s)
    requires Concat(rest) == if b < LastStop(s) then s[b..LastStop(s)] else []
    ensures Concat([s[i..b]] + rest) == s[i..LastStop(s)]
  {
    assert ([s[i..b]] + rest)[1..] == rest;
    if b < LastStop(s) {
      assert s[i..b] + s[b..LastStop(s)] == s[i..LastStop(s)];
    }
  }

  /** The sentence chunks: consecutive pieces of the content. */
  lemma SentencesOfContent(s: string)
    ensures var p := RunEnd(s, 0, IsTerminator);
      Concat(Sentences(s)) == if p < LastStop(s) then s[p..LastStop(s)] else []
  {
    SentencesSpell(s, 0);
  }

  /** The chunk ends with a terminator. */
  predicate EndsInStop(c: string) {
    c != [] && IsTerminator(c[|c| - 1])
  }

  predicate AllEndInStop(ss: seq<string>) {
    forall m | 0 <= m < |ss| :: EndsInStop(ss[m])
  }

  lemma AllEndInStopCons(c: string, rest: seq<string>)
    requires EndsInStop(c) && AllEndInStop(rest)
    ensures AllEndInStop([c] + rest)
  {
    assert forall m | 1 <= m < |[c] + rest| :: ([c] + rest)[m] == rest[m - 1];
  }

  /** Every sentence ends with a terminator. */
  lemma {:induction false} SentencesEndInStop(s: string, i: nat)
    requires i <= |s|
    ensures AllEndInStop(MatchesFrom(s, Sentence, i))
    decreases |s| - i
  {
    if i < |s| {
      if IsTerminator(s[i]) || RunEnd(s, i, NotTerminator) == |s| {
        assert Sentence(s, i) == SentenceAt(s, i);
        assert MatchesFrom(s, Sentence, i) == MatchesFrom(s, Sentence, i + 1);
        SentencesEndInStop(s, i + 1);
      } else {
        var b := SentenceHit(s, i);
        SentencesEndInStop(s, b);
        assert s[i..b][b - i - 1] == s[b - 1];
        AllEndInStopCons(s[i..b], MatchesFrom(s, Sentence, b));
      }
    }
  }

  // ---------------------------------------------------------------------
  // Words

  /** What the word loop emits from word `k` on, with `cur` collected so far:
      each word and a space are added to the chunk, which is flushed once it
      is longer than 30 UTF-16 units or ends with a word equal to the last
      one. Whatever is still collected after the last word is dropped. */
  function WordChunksFrom(words: seq<string>, k: nat, cur: string): seq<string>
    requires k <= |words|
    decreases |words| - k
  {
    if k == |words| then []
    else
      var c := cur + words[k] + " ";
      if Utf16Length(c) > 30 || words[k] == words[|words| - 1] then [c] + WordChunksFrom(words, k + 1, [])
      else WordChunksFrom(words, k + 1, c)
  }

  /** Each word followed by a space. */
  function Spaced(words: seq<string>): string {
    if words == [] then [] else words[0] + " " + Spaced(words[1..])
  }

  lemma {:induction false} SpacedIsJoin(words: seq<string>)
    requires words != []
    ensures Spaced(words) == Join(words, " ") + " "
  {
    if |words| > 1 {
      SpacedIsJoin(words[1..]);
    } else {
      assert Spaced(words[1..]) == [];
    }
  }

  /** Nothing is lost: the last word always flushes, so the chunks spell out
      the collected text and the words left. */
  lemma {:induction false} WordChunksSpell(words: seq<string>, k: nat, cur: string)
    requires k <= |words|
    requires k < |words| || cur == []
    ensures Concat(WordChunksFrom(words, k, cur)) == cur + Spaced(words[k..])
    decreases |words| - k
  {
    if k < |words| {
      var c := cur + words[k] + " ";
      WordStep(words, k, cur);
      SpacedStep(words, k);
      WordAppended(cur, words[k], Spaced(words[k + 1..]));
      if Utf16Length(c) > 30 || words[k] == words[|words| - 1] {
        WordChunksSpell(words, k + 1, []);
        ConcatCons(c, WordChunksFrom(words, k + 1, []));
      } else {
        WordChunksSpell(words, k + 1, c);
      }
    } else {
      assert words[k..] == [];
    }
  }

  lemma WordAppended(cur: string, word: string, rest: string)
    ensures (cur + word + " ") + rest == cur + ((word + " ") + rest)
  {
  }

  lemma ConcatCons(c: string, tail: seq<string>)
    ensures Concat([c] + tail) == c + Concat(tail)
  {
    assert ([c] + tail)[1..] == tail;
  }

  lemma SpacedStep(words: seq<string>, k: nat)
    requires k < |words|
    ensures Spaced(words[k..]) == (words[k] + " ") + Spaced(words[k + 1..])
  {
    assert words[k..][1..] == words[k + 1..];
  }

  /** One step of the word loop. */
  lemma WordStep(words: seq<string>, k: nat, cur: string)
    requires k < |words|
    ensures var c := cur + words[k] + " ";
      WordChunksFrom(words, k, cur) ==
        if Utf16Length(c) > 30 || words[k] == words[|words| - 1] then [c] + WordChunksFrom(words, k + 1, [])
        else WordChunksFrom(words, k + 1, c)
  {
  }

  /** A flushed chunk is longer than 30 units or ends with the last word and a space. */
  predicate FlushedWell(c: string, last: string) {
    Utf16Length(c) > 30 || EndsWith(c, last + " ")
  }

  lemma FlushedChunk(cur: string, word: string, last: string)
    requires Utf16Length(cur + word + " ") > 30 || word == last
    ensures FlushedWell(cur + word + " ", last)
  {
    var c := cur + word + " ";
    assert c[|c| - |word + " "|..] == word + " ";
  }

  /** Every chunk is longer than 30 units or ends with the last word and a space. */
  lemma {:induction false} WordChunksFlushPolicy(words: seq<string>, k: nat, cur: string)
    requires k <= |words|
    ensures var cs := WordChunksFrom(words, k, cur);
      forall m | 0 <= m < |cs| :: FlushedWell(cs[m], words[|words| - 1])
    decreases |words| - k
  {
    if k < |words| {
      var c := cur + words[k] + " ";
      WordStep(words, k, cur);
      if Utf16Length(c) > 30 || words[k] == words[|words| - 1] {
        WordChunksFlushPolicy(words, k + 1, []);
        FlushedChunk(cur, words[k], words[|words| - 1]);
      } else {
        WordChunksFlushPolicy(words, k + 1, c);
      }
    }
  }

  lemma {:induction false} WordChunksNonEmpty(words: seq<string>, k: nat, cur: string)
    requires k < |words|
    ensures |WordChunksFrom(words, k, cur)| >= 1
    decreases |words| - k
  {
    var c := cur + words[k] + " ";
    if !(Utf16Length(c) > 30 || words[k] == words[|words| - 1]) {
      WordChunksNonEmpty(words, k + 1, c);
    }
  }

  /** The chunk ends with a space. */
  predicate EndsInSpace(c: string) {
    c != [] && c[|c| - 1] == ' '
  }

  predicate AllEndInSpace(cs: seq<string>) {
    forall m | 0 <= m < |cs| :: EndsInSpace(cs[m])
  }

  /** Every word chunk ends with a space. */
  lemma {:induction false} WordChunksEndInSpace(words: seq<string>, k: nat, cur: string)
    requires k <= |words|
    ensures AllEndInSpace(WordChunksFrom(words, k, cur))
    decreases |words| - k
  {
    if k < |words| {
      var c := cur + words[k] + " ";
      WordStep(words, k, cur);
      if Utf16Length(c) > 30 || words[k] == words[|words| - 1] {
        var rest := WordChunksFrom(words, k + 1, []);
        WordChunksEndInSpace(words, k + 1, []);
        assert EndsInSpace(c);
        assert forall m | 1 <= m < |[c] + rest| :: ([c] + rest)[m] == rest[m - 1];
      } else {
        WordChunksEndInSpace(words, k + 1, c);
      }
    }
  }

  /** The word chunks of a text spell out the text and one more space. */
  lemma WordChunksOfText(text: string)
    ensures Concat(WordChunksFrom(Split(text, ' '), 0, [])) == text + " "
    ensures |WordChunksFrom(Split(text, ' '), 0, [])| >= 1
  {
    var words := Split(text, ' ');
    WordChunksSpell(words, 0, []);
    assert words[0..] == words;
    SpacedIsJoin(words);
    WordChunksNonEmpty(words, 0, []);
  }

  /** One turn of the word loop keeps what is emitted and what is still to
      come equal to all the chunks. */
  lemma WordLoopStep(words: seq<string>, k: nat, cur: string, chunks: seq<string>)
    requires k < |words| && chunks + WordChunksFrom(words, k, cur) == WordChunksFrom(words, 0, [])
    ensures var c := cur + words[k] + " ";
      if Utf16Length(c) > 30 || words[k] == words[|words| - 1]
      then (chunks + [c]) + WordChunksFrom(words, k + 1, []) == WordChunksFrom(words, 0, [])
      else chunks + WordChunksFrom(words, k + 1, c) == WordChunksFrom(words, 0, [])
  {
    var c := cur + words[k] + " ";
    WordStep(words, k, cur);
    ChunksAssoc(chunks, [c], WordChunksFrom(words, k + 1, []));
  }

  /** The word loop, with its mutable chunk. */
  method WordChunks(text: string) returns (chunks: seq<string>)
    ensures chunks == WordChunksFrom(Split(text, ' '), 0, [])
  {
    var words := Split(text, ' ');
    var cur := "";
    chunks := [];
    for k := 0 to |words|
      invariant k < |words| || cur == []
      invariant chunks + WordChunksFrom(words, k, cur) == WordChunksFrom(words, 0, [])
    {
      var word := words[k];
      WordLoopStep(words, k, cur, chunks);
      cur := cur + word + " ";
      if Utf16Length(cur) > 30 || word == words[|words| - 1] {
        chunks := chunks + [cur];
        cur := "";
      }
    }
  }

  // ---------------------------------------------------------------------
  // Restoring

  function RestoreChunks(blocks: seq<string>, raw: seq<string>): (chunks: seq<string>)
    ensures |chunks| == |raw|
    ensures forall k | 0 <= k < |raw| :: chunks[k] == Restore(PlaceholderPrefix, blocks, raw[k])
  {
    seq(|raw|, k requires 0 <= k < |raw| => Restore(PlaceholderPrefix, blocks, raw[k]))
  }

  /** A placeholder holds neither a terminator nor a space, so neither way of
      chunking can cut through one. */
  lemma PlaceholderUnbroken(n: nat)
    ensures var p := Token(PlaceholderPrefix, n);
      forall k | 0 <= k < |p| :: NotTerminator(p[k]) && p[k] != ' '
  {
    var p := Token(PlaceholderPrefix, n);
    var digits := NatToString(n);
    forall k | 0 <= k < |p| ensures NotTerminator(p[k]) && p[k] != ' ' {
      if 19 <= k < 19 + |digits| {
        assert p[k] == digits[k - 19];
      }
    }
  }

  /** Spaces and terminators are barriers for the placeholders, whose prefix
      holds no digit. */
  lemma PlaceholderBarriers()
    ensures forall c | c in PlaceholderPrefix :: !IsDigit(c)
    ensures forall c | IsTerminator(c) || c == ' ' :: Barrier(PlaceholderPrefix, c)
  {
  }

  /** A text made of barriers holds no placeholder and comes back unchanged. */
  lemma RestoreBarriers(blocks: seq<string>, w: string)
    requires forall k | 0 <= k < |w| :: Barrier(PlaceholderPrefix, w[k])
    ensures Restore(PlaceholderPrefix, blocks, w) == w
  {
    var r := TokenRule(PlaceholderPrefix, BlockLookup(blocks));
    forall j | 0 <= j < |w| ensures !HitsAt(w, r, j) {
      NotAtPastClose(PlaceholderPrefix, w, j, j, PlaceholderPrefix);
    }
    ReplaceWithoutHits(w, r, 0);
  }

  /** Restoring chunk by chunk is restoring their concatenation, when each
      chunk ends with a barrier: no chunk boundary cuts a placeholder. */
  lemma {:induction false} RestoreChunksConcat(blocks: seq<string>, raw: seq<string>)
    requires forall k | 0 <= k < |raw| :: raw[k] != [] && Barrier(PlaceholderPrefix, raw[k][|raw[k]| - 1])
    ensures Concat(RestoreChunks(blocks, raw)) == Restore(PlaceholderPrefix, blocks, Concat(raw))
  {
    if raw == [] {
      assert RestoreChunks(blocks, raw) == [];
    } else {
      var chunks := RestoreChunks(blocks, raw);
      RestoreChunksConcat(blocks, raw[1..]);
      assert chunks[1..] == RestoreChunks(blocks, raw[1..]);
      RestoreSplit(PlaceholderPrefix, BlockLookup(blocks), raw[0], Concat(raw[1..]));
    }
  }

  /** The protected content and the list of its math spans. */
  function Protected(content: string): string {
    ProtectFrom(content, MathSpan, PlaceholderPrefix, 0, 0)
  }

  function Spans(content: string): seq<string> {
    MatchesFrom(content, MathSpan, 0)
  }

  /** The word chunks, restored, spell out the content and one more space. */
  lemma WordChunksRestored(content: string)
    requires !Contains(content, PlaceholderPrefix)
    ensures var t := Protected(content);
      Concat(RestoreChunks(Spans(content), WordChunksFrom(Split(t, ' '), 0, []))) == content + " "
  {
    var t, blocks := Protected(content), Spans(content);
    var raw := WordChunksFrom(Split(t, ' '), 0, []);
    PlaceholderBarriers();
    WordChunksOfText(t);
    WordChunksEndInSpace(Split(t, ' '), 0, []);
    forall k | 0 <= k < |raw| ensures raw[k] != [] && Barrier(PlaceholderPrefix, raw[k][|raw[k]| - 1]) {
      assert EndsInSpace(raw[k]);
    }
    RestoreChunksConcat(blocks, raw);
    RestoreSplit(PlaceholderPrefix, BlockLookup(blocks), t, " ");
    RestoreBarriers(blocks, " ");
    RestoreProtected(content, MathSpan, PlaceholderPrefix);
  }

  /** The sentence chunks, restored, are the content between its leading
      terminators and the text after its last terminator, which is dropped. */
  lemma SentenceChunksRestored(content: string)
    requires !Contains(content, PlaceholderPrefix)
    requires Sentences(Protected(content)) != []
    ensures var t := Protected(content);
      var p, q := RunEnd(t, 0, IsTerminator), LastStop(t);
      p < q && content == t[..p] + Concat(RestoreChunks(Spans(content), Sentences(t))) + Restore(PlaceholderPrefix, Spans(content), t[q..])
  {
    var t, blocks := Protected(content), Spans(content);
    SentenceChunksJoin(t, blocks);
    RestoreAround(t, blocks);
    PlaceholderBarriers();
    RestoreProtected(content, MathSpan, PlaceholderPrefix);
  }

  /** The sentences of a text, restored one by one and joined, are its
      restored middle part. */
  lemma SentenceChunksJoin(t: string, blocks: seq<string>)
    requires Sentences(t) != []
    ensures var p, q := RunEnd(t, 0, IsTerminator), LastStop(t);
      p < q && Concat(RestoreChunks(blocks, Sentences(t))) == Restore(PlaceholderPrefix, blocks, t[p..q])
  {
    var ss := MatchesFrom(t, Sentence, 0);
    assert ss == Sentences(t);
    SentencesOfContent(t);
    SentencesEndInStop(t, 0);
    PlaceholderBarriers();
    forall k | 0 <= k < |ss| ensures ss[k] != [] && Barrier(PlaceholderPrefix, ss[k][|ss[k]| - 1]) {
      assert EndsInStop(ss[k]);
    }
    RestoreChunksConcat(blocks, ss);
    ConcatCons(ss[0], ss[1..]);
    assert ss == [ss[0]] + ss[1..];
  }

  /** Restoring a text with a sentence part restores that part in place:
      the leading terminators stay, and the tail is restored on its own. */
  lemma RestoreAround(t: string, blocks: seq<string>)
    requires RunEnd(t, 0, IsTerminator) < LastStop(t)
    ensures var p, q := RunEnd(t, 0, IsTerminator), LastStop(t);
      Restore(PlaceholderPrefix, blocks, t) ==
        t[..p] + Restore(PlaceholderPrefix, blocks, t[p..q]) + Restore(PlaceholderPrefix, blocks, t[q..])
  {
    RestoreThree(t, blocks, RunEnd(t, 0, IsTerminator), LastStop(t));
  }

  /** Restoring a text cut at `p` and `q`, where the text before `p` is all
      terminators and a terminator ends the text before `q`. */
  lemma RestoreThree(t: string, blocks: seq<string>, p: nat, q: nat)
    requires p <= q && 0 < q <= |t|
    requires forall k | 0 <= k < p :: IsTerminator(t[k])
    requires IsTerminator(t[q - 1])
    ensures Restore(PlaceholderPrefix, blocks, t) ==
      t[..p] + Restore(PlaceholderPrefix, blocks, t[p..q]) + Restore(PlaceholderPrefix, blocks, t[q..])
  {
    var lookup := BlockLookup(blocks);
    var a, m, c := t[..p], t[p..q], t[q..];
    PlaceholderBarriers();
    forall k | 0 <= k < |a| ensures Barrier(PlaceholderPrefix, a[k]) {
      assert IsTerminator(t[k]);
    }
    RestoreBarriers(blocks, a);
    assert Seam(PlaceholderPrefix, a, m);
    RestoreSplit(PlaceholderPrefix, lookup, a, m);
    assert a + m == t[..q];
    assert (a + m)[q - 1] == t[q - 1];
    assert Seam(PlaceholderPrefix, a + m, c);
    RestoreSplit(PlaceholderPrefix, lookup, a + m, c);
    assert a + m + c == t;
  }

  // ---------------------------------------------------------------------
  // simulateStreaming

  /** The chunks before restoring: the sentences, or the word chunks when
      there is no sentence. */
  function RawChunks(text: string): seq<string> {
    if Sentences(text) != [] then Sentences(text) else WordChunksFrom(Split(text, ' '), 0, [])
  }

  /** The chunks of `simulateStreaming`. On content holding no placeholder
      of its own, they give back the content: the word chunks all of it and
      a space, the sentence chunks all of it between its leading terminators
      and the text after its last terminator. */
  method SimulateStreaming(content: string) returns (chunks: seq<string>)
    ensures content == [] ==> chunks == [Apology]
    ensures content != [] ==> chunks == RestoreChunks(Spans(content), RawChunks(Protected(content)))
    ensures |chunks| >= 1
    ensures content != [] && !Contains(content, PlaceholderPrefix) && Sentences(Protected(content)) == [] ==>
      Concat(chunks) == content + " "
    ensures content != [] && !Contains(content, PlaceholderPrefix) && Sentences(Protected(content)) != [] ==>
      var t := Protected(content);
      content == t[..RunEnd(t, 0, IsTerminator)] + Concat(chunks) + Restore(PlaceholderPrefix, Spans(content), t[LastStop(t)..])
  {
    if content == [] {
      return [Apology];
    }
    var text, blocks := Protect(content, MathSpan, PlaceholderPrefix);
    var sentences := Sentences(text);
    var raw: seq<string>;
    if |sentences| == 0 {
      raw := WordChunks(text);
      WordChunksOfText(text);
    } else {
      raw := sentences;
    }
    chunks := RestoreChunks(blocks, raw);
    if !Contains(content, PlaceholderPrefix) {
      if |sentences| == 0 {
        WordChunksRestored(content);
      } else {
        SentenceChunksRestored(content);
      }
    }
  }
}
