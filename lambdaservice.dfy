/**
 * The Lambda service's half of the pipeline (src/services/lambdaService.ts):
 * its `processContent` (the shared markdown rules with emoji note icons), the
 * rewriting of fenced ```json blocks into `[FEEDBACK]`, `[OPTIONS]` and
 * `[QUIZ]` markers, and `createQuizFromLambdaFormat`.
 */
module LambdaService {
  import opened Wrappers
  import opened Text
  import opened Scan
  import opened Json
  import opened Envelope
  import opened Markdown

  // ---------------------------------------------------------------------
  // processContent

  /** The icons of this copy: one emoji per kind. */
  function EmojiIcon(k: NoteKind): string {
    match k
    case Important => "\U{1F511}"
    case Tip => "\U{1F4A1}"
    case Example => "\U{1F4DD}"
    case Steps => "\U{1F4CB}"
  }

  function EmojiNote(s: string, i: nat): Option<Hit> {
    Note(EmojiIcon, s, i)
  }

  /** The markdown rules in the order this copy runs them. */
  function Format(s: string): string {
    Cleanup(ReplaceAll(Paragraphs(Structure(ReplaceAll(s, LoosePlaceholder))), EmojiNote))
  }

  /** The apology for empty or non-string content; otherwise the formatted
      text, which neither starts nor ends with white space. */
  function ProcessContent(content: Json): (r: string)
    ensures !(content.JStr? && content.s != []) ==> r == Apology
    ensures content.JStr? && content.s != [] ==> r == Format(content.s)
    ensures r == [] || (!IsSpace(r[0]) && !IsSpace(r[|r| - 1]))
  {
    if content.JStr? && content.s != [] then Format(content.s)
    else
      assert Apology[0] == 'I' && Apology[|Apology| - 1] == '.';
      Apology
  }

  // ---------------------------------------------------------------------
  // Fenced JSON blocks

  /** A `}` that closes the payload: white space and three back-ticks follow. */
  predicate ClosesFence(s: string, k: nat) {
    k < |s| && s[k] == '}' && At(s, SpaceEnd(s, k + 1), "```")
  }

  /** The lazy `[\s\S]*?\}` of the fence: the first closing `}` from `k` on. */
  function FenceClose(s: string, k: nat): (c: Option<nat>)
    requires k <= |s|
    ensures c.Some? ==> k <= c.value && ClosesFence(s, c.value)
    ensures c.Some? ==> forall x | k <= x < c.value :: !ClosesFence(s, x)
    ensures c.None? ==> forall x | k <= x < |s| :: !ClosesFence(s, x)
    decreases |s| - k
  {
    if k == |s| then None
    else if ClosesFence(s, k) then Some(k)
    else FenceClose(s, k + 1)
  }

  /** ```` ```json\s*(\{[\s\S]*?\})\s*``` ```` matches from `i` to `e`, with
      the payload `s[j..k + 1]`: the first `\s*` is greedy, and the payload
      ends at the first `}` that white space and three back-ticks follow. */
  predicate FenceAt(s: string, i: nat, j: nat, k: nat, e: nat) {
    && At(s, i, "```json") && j == SpaceEnd(s, i + 7)
    && j < |s| && s[j] == '{'
    && FenceClose(s, j + 1) == Some(k)
    && e == SpaceEnd(s, k + 1) + 3 && e <= |s|
  }

  /** Where the fence at `i` keeps its payload and where it ends. */
  function FenceSpan(s: string, i: nat): (f: Option<(nat, nat, nat)>)
    ensures f.Some? ==> FenceAt(s, i, f.value.0, f.value.1, f.value.2)
    ensures f.Some? ==> i + 7 <= f.value.0 < f.value.1 < f.value.2 <= |s|
    ensures f.None? ==> forall j, k, e :: !FenceAt(s, i, j, k, e)
  {
    if At(s, i, "```json") then
      var j := SpaceEnd(s, i + 7);
      if j < |s| && s[j] == '{' then
        match FenceClose(s, j + 1)
        case Some(k) => FenceFound(s, i, j, k); Some((j, k, SpaceEnd(s, k + 1) + 3))
        case None => NoFenceAt(s, i); None
      else NoFenceAt(s, i); None
    else NoFenceAt(s, i); None
  }

  /** The fence whose payload opens at `j` and closes at `k`. */
  lemma FenceFound(s: string, i: nat, j: nat, k: nat)
    requires At(s, i, "```json") && j == SpaceEnd(s, i + 7) && j < |s| && s[j] == '{'
    requires FenceClose(s, j + 1) == Some(k)
    ensures FenceAt(s, i, j, k, SpaceEnd(s, k + 1) + 3)
    ensures i + 7 <= j < k < SpaceEnd(s, k + 1) + 3 <= |s|
  {
  }

  /** No fence starts at `i` when the opening, the brace or the closing `}` is missing. */
  lemma NoFenceAt(s: string, i: nat)
    requires At(s, i, "```json") ==>
      var j := SpaceEnd(s, i + 7); !(j < |s| && s[j] == '{' && FenceClose(s, j + 1).Some?)
    ensures forall j, k, e :: !FenceAt(s, i, j, k, e)
  {
  }

  /** The three kinds of interactive block. */
  datatype BlockKind = FeedbackBlock | OptionsBlock | QuizBlock

  /** `jsonData.type`, when it is one of the three names. */
  function KindOf(v: Json): (k: Option<BlockKind>)
    ensures k == Some(FeedbackBlock) <==> Field(v, "type") == Some(JStr("feedback"))
    ensures k == Some(OptionsBlock) <==> Field(v, "type") == Some(JStr("options"))
    ensures k == Some(QuizBlock) <==> Field(v, "type") == Some(JStr("quiz"))
  {
    var t := Field(v, "type");
    if t == Some(JStr("feedback")) then Some(FeedbackBlock)
    else if t == Some(JStr("options")) then Some(OptionsBlock)
    else if t == Some(JStr("quiz")) then Some(QuizBlock)
    else None
  }

  function Tag(k: BlockKind): string {
    match k
    case FeedbackBlock => "FEEDBACK"
    case OptionsBlock => "OPTIONS"
    case QuizBlock => "QUIZ"
  }

  /** The field that must be truthy: `question` for a quiz, else `message`. */
  function Lead(k: BlockKind): string {
    if k == QuizBlock then "question" else "message"
  }

  /** The block passes validation: a truthy lead field and an array of options. */
  predicate Valid(k: BlockKind, v: Json) {
    Truthy(Field(v, Lead(k))) && IsArray(Field(v, "options"))
  }

  /** Reading `label` of an entry throws when the entry is `null`: the
      options always, the actions of a quiz when they are an array. */
  predicate Throws(k: BlockKind, v: Json)
    requires Valid(k, v)
  {
    || JNull in Field(v, "options").value.items
    || (k == QuizBlock && IsArray(Field(v, "actions")) && JNull in Field(v, "actions").value.items)
  }

  /** `formatFeedbackJson`, `formatOptionsJson` and `formatQuizJson`: `''`
      for a block that fails validation, nothing (it throws) for a block with
      a `null` entry, else the marker around the whole serialized object. */
  function FormatBlock(codec: Codec, k: BlockKind, v: Json): (r: Option<string>)
    ensures !Valid(k, v) ==> r == Some([])
    ensures Valid(k, v) && Throws(k, v) ==> r.None?
    ensures Valid(k, v) && !Throws(k, v) ==>
      r == Some("[" + Tag(k) + "]" + codec.stringify(v) + "[/" + Tag(k) + "]")
  {
    if !Valid(k, v) then Some([])
    else if Throws(k, v) then None
    else Some("[" + Tag(k) + "]" + codec.stringify(v) + "[/" + Tag(k) + "]")
  }

  /** The replacement of one fence, `whole` being the matched text. */
  function Rewrite(codec: Codec, whole: string, payload: string): (r: string)
  {
    match codec.parse(payload)
    case None => whole
    case Some(v) =>
      match KindOf(v)
      case None => whole
      case Some(k) =>
        match FormatBlock(codec, k, v)
        case Some(out) => out
        case None => whole
  }

  /** One fenced block at `i`, rewritten. */
  function Fence(codec: Codec, s: string, i: nat): (h: Option<Hit>)
    ensures h.Some? <==> FenceSpan(s, i).Some?
    ensures h.Some? ==> i + h.value.len == FenceSpan(s, i).value.2
    ensures h.Some? ==>
      var (j, k, e) := FenceSpan(s, i).value;
      h.value.out == Rewrite(codec, s[i..e], s[j..k + 1])
  {
    match FenceSpan(s, i)
    case Some((j, k, e)) => Some(Hit(e - i, Rewrite(codec, s[i..e], s[j..k + 1])))
    case None => None
  }

  /** `parseJsonCodeBlocks` */
  function ParseJsonCodeBlocks(codec: Codec, s: string): string {
    ReplaceAll(s, (t: string, i: nat) => Fence(codec, t, i))
  }

  /** What the Lambda service hands to `onToken`: the envelope's reply,
      formatted, then its fenced blocks rewritten. */
  function Reply(codec: Codec, data: Json): (r: string)
    ensures var p := ProcessContent(ExtractResponseContent(codec, data));
      Unfenced(p) ==> r == p
    ensures var c := ExtractResponseContent(codec, data);
      !(c.JStr? && c.s != []) ==> r == Apology
  {
    var p := ProcessContent(ExtractResponseContent(codec, data));
    NoFenceUnchanged(codec, p);
    ApologyUnfenced();
    ParseJsonCodeBlocks(codec, p)
  }

  /** No ```` ```json ```` fence opens anywhere in `s`. */
  predicate Unfenced(s: string) {
    forall i | 0 <= i <= |s| :: !At(s, i, "```json")
  }

  lemma ApologyUnfenced()
    ensures Unfenced(Apology)
  {
    assert '`' !in Apology;
    forall i | 0 <= i <= |Apology| ensures !At(Apology, i, "```json") {
      Patterns.AtHead(Apology, i, "```json", 0);
    }
  }

  // ---------------------------------------------------------------------
  // What a fence becomes

  /** A payload that does not parse, or whose `type` is none of the three,
      leaves the fence exactly as matched. */
  lemma FenceKeptWhenUnrecognised(codec: Codec, whole: string, payload: string)
    requires codec.parse(payload).None? || KindOf(codec.parse(payload).value).None?
    ensures Rewrite(codec, whole, payload) == whole
  {
  }

  /** A block of a known kind with a `null` option (or quiz action) makes the
      formatter throw; the error is caught and the fence stays. */
  lemma FenceKeptWhenFormatterThrows(codec: Codec, whole: string, payload: string, k: BlockKind)
    requires codec.parse(payload).Some? && KindOf(codec.parse(payload).value) == Some(k)
    requires Valid(k, codec.parse(payload).value) && Throws(k, codec.parse(payload).value)
    ensures Rewrite(codec, whole, payload) == whole
  {
  }

  /** A block of a known kind that fails validation disappears. */
  lemma InvalidBlockVanishes(codec: Codec, whole: string, payload: string, k: BlockKind)
    requires codec.parse(payload).Some? && KindOf(codec.parse(payload).value) == Some(k)
    requires !Valid(k, codec.parse(payload).value)
    ensures Rewrite(codec, whole, payload) == []
  {
  }

  /** A valid block becomes its marker around the serialization of the whole
      parsed object, entries without `label` or `value` included. */
  lemma ValidBlockTagged(codec: Codec, whole: string, payload: string, k: BlockKind)
    requires codec.parse(payload).Some? && KindOf(codec.parse(payload).value) == Some(k)
    requires Valid(k, codec.parse(payload).value) && !Throws(k, codec.parse(payload).value)
    ensures Rewrite(codec, whole, payload)
         == "[" + Tag(k) + "]" + codec.stringify(codec.parse(payload).value) + "[/" + Tag(k) + "]"
  {
  }

  /** An empty list of options passes validation. */
  lemma EmptyOptionsPass(codec: Codec, message: string)
    requires message != []
    ensures var v := JObj([("type", JStr("feedback")), ("message", JStr(message)), ("options", JArr([]))]);
      FormatBlock(codec, FeedbackBlock, v) == Some("[FEEDBACK]" + codec.stringify(v) + "[/FEEDBACK]")
  {
    var v := JObj([("type", JStr("feedback")), ("message", JStr(message)), ("options", JArr([]))]);
    assert v.fields[..2][..1] == [("type", JStr("feedback"))];
    assert Lookup(v.fields[..2], "message") == Some(JStr(message));
    assert Field(v, "message") == Some(JStr(message));
    assert Field(v, "options") == Some(JArr([]));
    assert Lead(FeedbackBlock) == "message";
    assert Valid(FeedbackBlock, v) && !Throws(FeedbackBlock, v);
    var x := codec.stringify(v);
    assert "[" + Tag(FeedbackBlock) + "]" + x + "[/" + Tag(FeedbackBlock) + "]" == "[FEEDBACK]" + x + "[/FEEDBACK]";
  }

  /** Text without a ```` ```json ```` fence comes back unchanged. */
  lemma NoFenceUnchanged(codec: Codec, s: string)
    ensures Unfenced(s) ==> ParseJsonCodeBlocks(codec, s) == s
  {
    if Unfenced(s) {
      var r: Rule := (t: string, i: nat) => Fence(codec, t, i);
      forall j | 0 <= j < |s|
        ensures !HitsAt(s, r, j)
      {
      }
      ReplaceWithoutHits(s, r, 0);
    }
  }

  /** Fences that are all kept (none parses to a block the formatters
      accept) leave the whole text unchanged: nothing outside a fence is
      ever touched. */
  lemma KeptFencesUnchanged(codec: Codec, s: string)
    requires forall i | 0 <= i < |s| && FenceSpan(s, i).Some? ::
      var (j, k, e) := FenceSpan(s, i).value;
      Rewrite(codec, s[i..e], s[j..k + 1]) == s[i..e]
    ensures ParseJsonCodeBlocks(codec, s) == s
  {
    var r: Rule := (t: string, i: nat) => Fence(codec, t, i);
    forall j | 0 <= j < |s|
      ensures Echoes(s, r, j)
    {
    }
    ReplaceEchoing(s, r, 0);
  }

  // ---------------------------------------------------------------------
  // createQuizFromLambdaFormat

  /** One question as the quiz keeps it; `None` is an absent field. */
  datatype Question = Question(questionText: Option<Json>, options: Option<Json>, correctOptionIndex: Option<Json>)

  datatype Quiz = Quiz(kind: Json, quizType: Json, quizTitle: Json, questions: seq<Question>)

  /** Why no quiz was made: the format check failed, or a property of
      `null` was read. */
  datatype QuizError = InvalidFormat | NullAccess

  datatype QuizResult = Made(quiz: Quiz) | Thrown(error: QuizError)

  function Keep(q: Json): Question {
    Question(Field(q, "questionText"), Field(q, "options"), Field(q, "correctOptionIndex"))
  }

  /** `createQuizFromLambdaFormat` */
  function CreateQuizFromLambdaFormat(data: Json): (r: QuizResult)
    ensures data.JNull? ==> r == Thrown(NullAccess)
    ensures (!data.JNull? && !(Truthy(Field(data, "Type")) && Truthy(Field(data, "quizType"))
                               && IsArray(Field(data, "questions")))) ==> r == Thrown(InvalidFormat)
    ensures r.Made? ==> IsArray(Field(data, "questions"))
    ensures r.Made? ==> var qs := Field(data, "questions").value.items;
      && JNull !in qs
      && r.quiz.kind == Field(data, "Type").value
      && r.quiz.quizType == Field(data, "quizType").value
      && r.quiz.quizTitle == (if Truthy(Field(data, "quizTitle")) then Field(data, "quizTitle").value
                              else JStr("Lesson Check"))
      && |r.quiz.questions| == |qs|
      && forall n | 0 <= n < |qs| :: r.quiz.questions[n] == Keep(qs[n])
  {
    if data.JNull? then Thrown(NullAccess)
    else if !(Truthy(Field(data, "Type")) && Truthy(Field(data, "quizType")) && IsArray(Field(data, "questions"))) then
      Thrown(InvalidFormat)
    else
      var qs := Field(data, "questions").value.items;
      if JNull in qs then Thrown(NullAccess)
      else
        var title := Or(Field(data, "quizTitle"), Some(JStr("Lesson Check"))).value;
        Made(Quiz(Field(data, "Type").value, Field(data, "quizType").value, title,
                  seq(|qs|, n requires 0 <= n < |qs| => Keep(qs[n]))))
  }

  /** Every well-formed quiz is made: a truthy `Type` and `quizType` and an
      array of non-null questions are all it takes. */
  lemma QuizMadeWhenWellFormed(data: Json)
    requires !data.JNull? && Truthy(Field(data, "Type")) && Truthy(Field(data, "quizType"))
    requires IsArray(Field(data, "questions")) && JNull !in Field(data, "questions").value.items
    ensures CreateQuizFromLambdaFormat(data).Made?
  {
  }
}
