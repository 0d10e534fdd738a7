/**
 * The content pipeline of the Lambda client: `processContent` strips code and
 * markup and collapses blank lines, `fixLatexMath` repairs LaTeX inside `$…$`
 * and `[MATH]…[/MATH]`, and `convertPlainTextMath` rewrites eight plain-text
 * trigonometric identities into display math.
 */
module Lambda {
  import opened Wrappers
  import opened Text
  import opened Scan
  import opened Patterns
  import opened Newlines
  import opened Json
  import opened Envelope
  import opened PlainTextMath
  import opened TexRules

  // ---------------------------------------------------------------------
  // Stripping code and markup

  /** Where `return 0;\s*}` first completes at or after `j`: the lazy body of
      `#include[\s\S]*?return 0;\s*}` ends at the first place the tail fits. */
  function IncludeEnd(s: string, j: nat): (e: Option<nat>)
    requires j <= |s|
    ensures e.Some? ==> j + 10 <= e.value <= |s| && s[e.value - 1] == '}'
    decreases |s| - j
  {
    if j == |s| then None
    else if At(s, j, "return 0;") && SpaceEnd(s, j + 9) < |s| && s[SpaceEnd(s, j + 9)] == '}' then
      Some(SpaceEnd(s, j + 9) + 1)
    else IncludeEnd(s, j + 1)
  }

  /** `#include[\s\S]*?return 0;\s*}`, removed. */
  function IncludeBlock(s: string, i: nat): (h: Option<Hit>)
    ensures h.Some? ==> At(s, i, "#include") && h.value.out == []
    ensures h.Some? ==> 18 <= h.value.len && i + h.value.len <= |s| && s[i + h.value.len - 1] == '}'
  {
    if At(s, i, "#include") then
      match IncludeEnd(s, i + 8)
      case Some(e) => Some(Hit(e - i, []))
      case None => None
    else None
  }

  /** A fence with a language tag and a line feed, its contents and the
      closing fence (`[\w]*\n[\s\S]*?` between two triple backquotes), removed. */
  function CodeFence(s: string, i: nat): (h: Option<Hit>)
    ensures h.Some? ==> At(s, i, "```") && h.value.out == [] && 7 <= h.value.len
    ensures h.Some? ==> At(s, i + h.value.len - 3, "```")
  {
    if At(s, i, "```") then
      var w := RunEnd(s, i + 3, IsWordChar);
      if w < |s| && s[w] == '\n' then
        match LazyUntil(s, w + 1, "```", true)
        case Some(k) => Some(Hit(k + 3 - i, []))
        case None => None
      else None
    else None
  }

  /** The lookahead `(?!math|\/math|m[a-z]+|\/m[a-z]+)` fails at `j`. */
  predicate MathTagAhead(s: string, j: nat) {
    || At(s, j, "math") || At(s, j, "/math")
    || (At(s, j, "m") && j + 1 < |s| && IsLower(s[j + 1]))
    || (At(s, j, "/m") && j + 2 < |s| && IsLower(s[j + 2]))
  }

  /** `<(?!…)[^>]*>`, removed: a tag up to the first `>`, unless it begins
      `<m` or `</m` followed by a lower-case letter. */
  function HtmlTag(s: string, i: nat): (h: Option<Hit>)
    ensures h.Some? ==> i < |s| && s[i] == '<' && !MathTagAhead(s, i + 1) && h.value.out == []
    ensures h.Some? ==> (2 <= h.value.len && i + h.value.len <= |s| && s[i + h.value.len - 1] == '>'
                         && forall m | i < m < i + h.value.len - 1 :: s[m] != '>')
    ensures (i < |s| && s[i] == '<' && !MathTagAhead(s, i + 1)
             && exists m | i < m < |s| :: s[m] == '>') ==> h.Some?
  {
    if i < |s| && s[i] == '<' && !MathTagAhead(s, i + 1) then
      match IndexFrom(s, i + 1, '>')
      case Some(k) => Some(Hit(k + 1 - i, []))
      case None => None
    else None
  }

  /** `\n{3,}`: a run of three or more line feeds becomes two. */
  function NewlineRun(s: string, i: nat): (h: Option<Hit>)
    ensures h.Some? ==> i <= |s| && h.value.len == LeadNL(s[i..]) && h.value.len >= 3
    ensures h.Some? ==> h.value.out == "\n\n"
  {
    if i <= |s| && LeadNL(s[i..]) >= 3 then Some(Hit(LeadNL(s[i..]), "\n\n")) else None
  }

  /** The first include block, every fenced block and every non-math tag removed. */
  function StripCode(s: string): string {
    ReplaceAll(ReplaceAll(ReplaceFirst(s, IncludeBlock), CodeFence), HtmlTag)
  }

  /** After the run rule no three line feeds are left, and a run of them at
      the front is never longer than before. */
  lemma {:induction false} CollapseBreaksRuns(s: string, i: nat)
    requires i <= |s|
    ensures NoTripleNewline(ReplaceFrom(s, NewlineRun, i))
    ensures LeadNL(ReplaceFrom(s, NewlineRun, i)) <= 2
    ensures LeadNL(ReplaceFrom(s, NewlineRun, i)) <= LeadNL(s[i..])
    decreases |s| - i
  {
    if i == |s| {
      NoNewlineAtAll(ReplaceFrom(s, NewlineRun, i));
    } else if HitsAt(s, NewlineRun, i) {
      CollapseBreaksRuns(s, i + LeadNL(s[i..]));
      CollapseHitStep(s, i);
    } else {
      CollapseBreaksRuns(s, i + 1);
      CollapseKeptStep(s, i);
    }
  }

  /** A run of three or more line feeds becomes two, and the scan goes on
      after the run, where no line feed is left. */
  lemma CollapseHitStep(s: string, i: nat)
    requires i < |s| && HitsAt(s, NewlineRun, i)
    requires var tail := ReplaceFrom(s, NewlineRun, i + LeadNL(s[i..]));
      NoTripleNewline(tail) && LeadNL(tail) <= LeadNL(s[i + LeadNL(s[i..])..])
    ensures NoTripleNewline(ReplaceFrom(s, NewlineRun, i))
    ensures LeadNL(ReplaceFrom(s, NewlineRun, i)) <= 2
    ensures LeadNL(ReplaceFrom(s, NewlineRun, i)) <= LeadNL(s[i..])
  {
    var n := LeadNL(s[i..]);
    var tail := ReplaceFrom(s, NewlineRun, i + n);
    assert s[i..][n..] == s[i + n..];
    if i + n < |s| {
      assert s[i + n..][0] == s[i..][n];
    }
    assert LeadNL(s[i + n..]) == 0;
    assert ReplaceFrom(s, NewlineRun, i) == "\n\n" + tail;
    assert !At("\n\n", 0, "\n\n\n");
    LeadNLAppend("\n\n", tail);
    NoTripleNewlineAppend("\n\n", tail);
  }

  /** A character the rule does not match is copied; a line feed there
      starts a run of at most two. */
  lemma CollapseKeptStep(s: string, i: nat)
    requires i < |s| && !HitsAt(s, NewlineRun, i)
    requires var tail := ReplaceFrom(s, NewlineRun, i + 1);
      NoTripleNewline(tail) && LeadNL(tail) <= 2 && LeadNL(tail) <= LeadNL(s[i + 1..])
    ensures NoTripleNewline(ReplaceFrom(s, NewlineRun, i))
    ensures LeadNL(ReplaceFrom(s, NewlineRun, i)) <= 2
    ensures LeadNL(ReplaceFrom(s, NewlineRun, i)) <= LeadNL(s[i..])
  {
    var tail := ReplaceFrom(s, NewlineRun, i + 1);
    assert ReplaceFrom(s, NewlineRun, i) == [s[i]] + tail;
    assert s[i..] == [s[i]] + s[i + 1..];
    FitsNewlinesKept(s[i]);
    LeadNLAppend([s[i]], s[i + 1..]);
    LeadNLAppend([s[i]], tail);
    WindowAcross([], tail);
    assert [] + tail == tail;
    NoTripleNewlineAppend([s[i]], tail);
  }

  lemma CollapsedHasNoTripleNewline(s: string)
    ensures NoTripleNewline(Trim(ReplaceAll(s, NewlineRun)))
  {
    var c := ReplaceAll(s, NewlineRun);
    CollapseBreaksRuns(s, 0);
    var a := SpaceEnd(c, 0);
    NoTripleNewlineSlice(c, a, a + |Trim(c)|);
  }

  // ---------------------------------------------------------------------
  // fixLatexMath

  const FunctionNames: seq<string> := ["sin", "cos", "tan", "log", "ln", "lim", "max", "min"]
  const GreekNames: seq<string> := ["alpha", "beta", "gamma", "delta", "theta", "pi", "sigma", "omega"]

  const Functions: Rule := (s: string, i: nat) => BackslashName(FunctionNames, s, i)
  const Fracs: Rule := (s: string, i: nat) => BackslashCommand("frac", s, i)
  const Roots: Rule := (s: string, i: nat) => BackslashCommand("sqrt", s, i)
  const Texts: Rule := (s: string, i: nat) => BackslashCommand("text", s, i)
  const Greeks: Rule := (s: string, i: nat) => BackslashName(GreekNames, s, i)

  /** The six repairs, in order, applied to a math body. */
  function FixMath(m: string): string {
    var named := ReplaceAll(m, Functions);
    var fracs := ReplaceAll(named, Fracs);
    var roots := ReplaceAll(fracs, Roots);
    var texts := ReplaceAll(roots, Texts);
    var greek := ReplaceAll(texts, Greeks);
    ReplaceAll(greek, ScriptBraces)
  }

  /** The inline repair: an amount is left alone, anything else repaired. */
  function InlineRepair(body: string): (r: string)
    ensures IsAmount(body) ==> r == body
    ensures !IsAmount(body) ==> r == FixMath(body)
  {
    if IsAmount(body) then body else FixMath(body)
  }

  /** `\$(.*?)\$`: a `$`-delimited body on one line, given to `fix`. */
  function DollarSpan(fix: string -> string, s: string, i: nat): (h: Option<Hit>)
    ensures h.Some? ==> (i + h.value.len <= |s| && 2 <= h.value.len
                         && s[i] == '$' && s[i + h.value.len - 1] == '$'
                         && NoLineTerminator(s[i + 1..i + h.value.len - 1]))
    ensures h.Some? ==> h.value.out == "$" + fix(s[i + 1..i + h.value.len - 1]) + "$"
  {
    if i < |s| && s[i] == '$' then
      match LazyUntil(s, i + 1, "$", false)
      case Some(k) => Some(Hit(k + 1 - i, "$" + fix(s[i + 1..k]) + "$"))
      case None => None
    else None
  }

  /** `\[MATH\]([\s\S]*?)\[\/MATH\]`, its body given to `fix`. */
  function BlockSpan(fix: string -> string, s: string, i: nat): (h: Option<Hit>)
    ensures h.Some? ==> (i + h.value.len <= |s| && 13 <= h.value.len
                         && At(s, i, "[MATH]") && At(s, i + h.value.len - 7, "[/MATH]"))
    ensures h.Some? ==> h.value.out == "[MATH]" + fix(s[i + 6..i + h.value.len - 7]) + "[/MATH]"
  {
    if At(s, i, "[MATH]") then
      match LazyUntil(s, i + 6, "[/MATH]", true)
      case Some(k) => Some(Hit(k + 7 - i, "[MATH]" + fix(s[i + 6..k]) + "[/MATH]"))
      case None => None
    else None
  }

  const InlineMath: Rule := (s: string, i: nat) => DollarSpan(InlineRepair, s, i)
  const BlockMath: Rule := (s: string, i: nat) => BlockSpan(FixMath, s, i)

  /** `fixLatexMath`: the `$…$` pass, then the `[MATH]…[/MATH]` pass. Each
      copies the characters it does not match and re-emits every span
      between its own delimiters with the body repaired. */
  function FixLatexMath(content: string): (r: string)
    ensures var t := ReplaceAll(content, InlineMath);
      Spells(content, InlineMath, t, InlineMark) && Spells(t, BlockMath, r, BlockMark)
  {
    var t := ReplaceAll(content, InlineMath);
    InlineSpelled(content);
    BlockSpelled(t);
    ReplaceAll(t, BlockMath)
  }

  /** A span of the inline pass is re-emitted between dollars, its body
      repaired unless it is an amount. */
  predicate InlineMark(p: Piece) {
    p.Swapped? ==> Reemitted(p.text, p.out, "$", "$", InlineRepair)
  }

  /** A span of the block pass is re-emitted between `[MATH]` and `[/MATH]`,
      its body repaired. */
  predicate BlockMark(p: Piece) {
    p.Swapped? ==> Reemitted(p.text, p.out, "[MATH]", "[/MATH]", FixMath)
  }

  lemma InlineSpelled(s: string)
    ensures Spells(s, InlineMath, ReplaceAll(s, InlineMath), InlineMark)
  {
    DollarPassKeepsDelimiters(InlineRepair, InlineMath, s);
  }

  lemma BlockSpelled(s: string)
    ensures Spells(s, BlockMath, ReplaceAll(s, BlockMath), BlockMark)
  {
    BlockPassKeepsDelimiters(FixMath, BlockMath, s);
  }

  /** A matched span runs from `open` to `close`, and its replacement is the
      same delimiters around the body given to `fix`. */
  predicate Reemitted(text: string, out: string, open: string, close: string, fix: string -> string) {
    && |open| + |close| <= |text|
    && StartsWith(text, open) && EndsWith(text, close)
    && out == open + fix(text[|open|..|text| - |close|]) + close
  }

  lemma DollarHitReemitted(fix: string -> string, s: string, j: nat)
    requires DollarSpan(fix, s, j).Some?
    ensures var h := DollarSpan(fix, s, j).value;
      Reemitted(s[j..j + h.len], h.out, "$", "$", fix)
  {
    var h := DollarSpan(fix, s, j).value;
    SliceOfSlice(s, j, j + h.len, 1, h.len - 2);
    SliceOfSlice(s, j, j + h.len, 0, 1);
    SliceOfSlice(s, j, j + h.len, h.len - 1, 1);
  }

  lemma BlockHitReemitted(fix: string -> string, s: string, j: nat)
    requires BlockSpan(fix, s, j).Some?
    ensures var h := BlockSpan(fix, s, j).value;
      Reemitted(s[j..j + h.len], h.out, "[MATH]", "[/MATH]", fix)
  {
    var h := BlockSpan(fix, s, j).value;
    SliceOfSlice(s, j, j + h.len, 6, h.len - 13);
    SliceOfSlice(s, j, j + h.len, 0, 6);
    SliceOfSlice(s, j, j + h.len, h.len - 7, 7);
  }

  /** The `$…$` pass cuts the input into characters it copies and spans it
      re-emits between the same `$` delimiters with the body given to `fix`. */
  lemma DollarPassKeepsDelimiters(fix: string -> string, r: Rule, s: string)
    requires forall t, i :: r(t, i) == DollarSpan(fix, t, i)
    ensures Inputs(PiecesFrom(s, r, 0)) == s
    ensures Outputs(PiecesFrom(s, r, 0)) == ReplaceAll(s, r)
    ensures var ps := PiecesFrom(s, r, 0);
      forall k | 0 <= k < |ps| && ps[k].Swapped? :: Reemitted(ps[k].text, ps[k].out, "$", "$", fix)
  {
    PiecesSpell(s, r, 0);
    var ps := PiecesFrom(s, r, 0);
    forall k | 0 <= k < |ps| && ps[k].Swapped?
      ensures Reemitted(ps[k].text, ps[k].out, "$", "$", fix)
    {
      DollarPieceReemitted(fix, r, s, ps[k]);
    }
  }

  lemma DollarPieceReemitted(fix: string -> string, r: Rule, s: string, p: Piece)
    requires forall t, i :: r(t, i) == DollarSpan(fix, t, i)
    requires Faithful(s, r, p) && p.Swapped?
    ensures Reemitted(p.text, p.out, "$", "$", fix)
  {
    DollarHitReemitted(fix, s, p.at);
  }

  /** The `[MATH]…[/MATH]` pass likewise keeps both delimiters. */
  lemma BlockPassKeepsDelimiters(fix: string -> string, r: Rule, s: string)
    requires forall t, i :: r(t, i) == BlockSpan(fix, t, i)
    ensures Inputs(PiecesFrom(s, r, 0)) == s
    ensures Outputs(PiecesFrom(s, r, 0)) == ReplaceAll(s, r)
    ensures var ps := PiecesFrom(s, r, 0);
      forall k | 0 <= k < |ps| && ps[k].Swapped? :: Reemitted(ps[k].text, ps[k].out, "[MATH]", "[/MATH]", fix)
  {
    PiecesSpell(s, r, 0);
    var ps := PiecesFrom(s, r, 0);
    forall k | 0 <= k < |ps| && ps[k].Swapped?
      ensures Reemitted(ps[k].text, ps[k].out, "[MATH]", "[/MATH]", fix)
    {
      BlockPieceReemitted(fix, r, s, ps[k]);
    }
  }

  lemma BlockPieceReemitted(fix: string -> string, r: Rule, s: string, p: Piece)
    requires forall t, i :: r(t, i) == BlockSpan(fix, t, i)
    requires Faithful(s, r, p) && p.Swapped?
    ensures Reemitted(p.text, p.out, "[MATH]", "[/MATH]", fix)
  {
    BlockHitReemitted(fix, s, p.at);
  }

  /** Inside a repaired body no `_` or `^` is left before a letter or digit. */
  lemma FixMathLeavesNoBareScript(m: string)
    ensures NoBareScript(FixMath(m))
  {
    var greek := ReplaceAll(ReplaceAll(ReplaceAll(ReplaceAll(ReplaceAll(m, Functions), Fracs), Roots), Texts), Greeks);
    ScriptBracesLeaveNoBareScript(greek, 0);
  }

  /** A one-character insertion after the first character of a match of at
      least two characters fits into a text free of triple line feeds. */
  lemma InsertionFits(text: string, ins: string)
    requires |text| >= 2 && ins != [] && '\n' !in ins
    requires forall k | 1 <= k < |text| - 1 :: text[k] != '\n'
    ensures FitsNewlines(text, text[..1] + ins + text[1..])
  {
    var out := text[..1] + ins + text[1..];
    forall k | 1 <= k < |out| - 1 ensures out[k] != '\n' {
      if k < 1 + |ins| {
        assert out[k] == ins[k - 1];
      } else {
        assert out[k] == text[k - |ins|];
      }
    }
    assert out[0] == text[0];
    assert out[|out| - 1] == text[|text| - 1];
    InteriorFits(text, out);
  }

  /** Only the first and last characters of `out` may be line feeds, and they
      agree with the text's. */
  lemma InteriorFits(text: string, out: string)
    requires |text| >= 2 && |out| >= 3
    requires out[0] == text[0] && out[|out| - 1] == text[|text| - 1]
    requires forall k | 1 <= k < |out| - 1 :: out[k] != '\n'
    ensures FitsNewlines(text, out)
  {
    forall k | 0 <= k <= |out| ensures !At(out, k, "\n\n\n") {
      if k + 3 <= |out| {
        assert out[k..k + 3][1] == out[k + 1];
      }
    }
    assert out[1] != '\n';
    assert out[|out| - 2] != '\n';
    if text[0] == '\n' {
      assert LeadNL(text) >= 1;
    }
    if text[|text| - 1] == '\n' {
      assert TrailNL(text) >= 1;
    }
  }

  /** No name of the list holds a line feed. */
  predicate NamesWithoutLineFeed(names: seq<string>) {
    forall k | 0 <= k < |names| :: '\n' !in names[k]
  }

  lemma NameListsWithoutLineFeed()
    ensures NamesWithoutLineFeed(FunctionNames) && NamesWithoutLineFeed(GreekNames)
  {
  }

  lemma NameInsertionFits(s: string, j: nat, names: seq<string>)
    requires NamesWithoutLineFeed(names)
    requires BackslashName(names, s, j).Some?
    ensures var h := BackslashName(names, s, j).value;
      FitsNewlines(s[j..j + h.len], h.out)
  {
    var h := BackslashName(names, s, j).value;
    var text := s[j..j + h.len];
    var n := s[j + 1..j + h.len - 1];
    assert forall k | 1 <= k < |text| - 1 :: text[k] == n[k - 1];
    assert '\n' !in n;
    assert text[..1] == s[j..j + 1] && text[1..] == s[j + 1..j + h.len];
    InsertionFits(text, "\\");
  }

  lemma CommandInsertionFits(s: string, j: nat, cmd: string)
    requires '\n' !in cmd
    requires BackslashCommand(cmd, s, j).Some?
    ensures FitsNewlines(s[j..j + |cmd| + 2], BackslashCommand(cmd, s, j).value.out)
  {
    var text := s[j..j + |cmd| + 2];
    assert text[1..] == cmd + "{";
    assert forall k | 1 <= k < |text| - 1 :: text[k] == cmd[k - 1];
    assert text[..1] == s[j..j + 1] && text[1..] == s[j + 1..j + |cmd| + 2];
    InsertionFits(text, "\\");
  }

  lemma NameKeepsNoTripleNewline(m: string, names: seq<string>, r: Rule)
    requires NoTripleNewline(m)
    requires NamesWithoutLineFeed(names)
    requires forall t, i :: r(t, i) == BackslashName(names, t, i)
    ensures NoTripleNewline(ReplaceAll(m, r))
  {
    forall j | 0 <= j < |m| && HitsAt(m, r, j)
      ensures FitsNewlines(m[j..j + r(m, j).value.len], r(m, j).value.out)
    {
      NameInsertionFits(m, j, names);
    }
    ReplaceKeepsNoTripleNewline(m, r, 0);
  }

  lemma CommandKeepsNoTripleNewline(m: string, cmd: string, r: Rule)
    requires NoTripleNewline(m)
    requires '\n' !in cmd
    requires forall t, i :: r(t, i) == BackslashCommand(cmd, t, i)
    ensures NoTripleNewline(ReplaceAll(m, r))
  {
    forall j | 0 <= j < |m| && HitsAt(m, r, j)
      ensures FitsNewlines(m[j..j + r(m, j).value.len], r(m, j).value.out)
    {
      CommandInsertionFits(m, j, cmd);
    }
    ReplaceKeepsNoTripleNewline(m, r, 0);
  }

  lemma ScriptsKeepNoTripleNewline(m: string)
    requires NoTripleNewline(m)
    ensures NoTripleNewline(ReplaceAll(m, ScriptBraces))
  {
    forall j | 0 <= j < |m| && HitsAt(m, ScriptBraces, j)
      ensures FitsNewlines(m[j..j + 2], [m[j], '{', m[j + 1], '}'])
    {
      NoNewlineFits(m[j..j + 2], [m[j], '{', m[j + 1], '}']);
    }
    ReplaceKeepsNoTripleNewline(m, ScriptBraces, 0);
  }

  /** The six repairs never create three consecutive line feeds. */
  lemma FixMathKeepsNoTripleNewline(m: string)
    requires NoTripleNewline(m)
    ensures NoTripleNewline(FixMath(m))
  {
    NameListsWithoutLineFeed();
    var named := ReplaceAll(m, Functions);
    NameKeepsNoTripleNewline(m, FunctionNames, Functions);
    var fracs := ReplaceAll(named, Fracs);
    CommandKeepsNoTripleNewline(named, "frac", Fracs);
    var roots := ReplaceAll(fracs, Roots);
    CommandKeepsNoTripleNewline(fracs, "sqrt", Roots);
    var texts := ReplaceAll(roots, Texts);
    CommandKeepsNoTripleNewline(roots, "text", Texts);
    var greek := ReplaceAll(texts, Greeks);
    NameKeepsNoTripleNewline(texts, GreekNames, Greeks);
    ScriptsKeepNoTripleNewline(greek);
  }

  /** `fix` never creates three consecutive line feeds. */
  ghost predicate KeepsNoTripleNewline(fix: string -> string) {
    forall m :: NoTripleNewline(m) ==> NoTripleNewline(fix(m))
  }

  lemma DollarHitFits(fix: string -> string, s: string, j: nat)
    requires KeepsNoTripleNewline(fix)
    requires NoTripleNewline(s)
    requires DollarSpan(fix, s, j).Some?
    ensures FitsNewlines(s[j..j + DollarSpan(fix, s, j).value.len], DollarSpan(fix, s, j).value.out)
  {
    var h := DollarSpan(fix, s, j).value;
    NoTripleNewlineSlice(s, j + 1, j + h.len - 1);
    WrappedNoTripleNewline("$", fix(s[j + 1..j + h.len - 1]), "$");
  }

  lemma BlockHitFits(fix: string -> string, s: string, j: nat)
    requires KeepsNoTripleNewline(fix)
    requires NoTripleNewline(s)
    requires BlockSpan(fix, s, j).Some?
    ensures FitsNewlines(s[j..j + BlockSpan(fix, s, j).value.len], BlockSpan(fix, s, j).value.out)
  {
    var h := BlockSpan(fix, s, j).value;
    NoTripleNewlineSlice(s, j + 6, j + h.len - 7);
    WrappedNoTripleNewline("[MATH]", fix(s[j + 6..j + h.len - 7]), "[/MATH]");
  }

  lemma DollarPassKeepsNoTripleNewline(fix: string -> string, r: Rule, s: string)
    requires KeepsNoTripleNewline(fix)
    requires forall t, i :: r(t, i) == DollarSpan(fix, t, i)
    requires NoTripleNewline(s)
    ensures NoTripleNewline(ReplaceAll(s, r))
  {
    forall j | 0 <= j < |s| && HitsAt(s, r, j)
      ensures FitsNewlines(s[j..j + r(s, j).value.len], r(s, j).value.out)
    {
      DollarHitFits(fix, s, j);
    }
    ReplaceKeepsNoTripleNewline(s, r, 0);
  }

  lemma BlockPassKeepsNoTripleNewline(fix: string -> string, r: Rule, s: string)
    requires KeepsNoTripleNewline(fix)
    requires forall t, i :: r(t, i) == BlockSpan(fix, t, i)
    requires NoTripleNewline(s)
    ensures NoTripleNewline(ReplaceAll(s, r))
  {
    forall j | 0 <= j < |s| && HitsAt(s, r, j)
      ensures FitsNewlines(s[j..j + r(s, j).value.len], r(s, j).value.out)
    {
      BlockHitFits(fix, s, j);
    }
    ReplaceKeepsNoTripleNewline(s, r, 0);
  }

  /** `fixLatexMath` never creates three consecutive line feeds. */
  lemma FixLatexMathKeepsNoTripleNewline(s: string)
    requires NoTripleNewline(s)
    ensures NoTripleNewline(FixLatexMath(s))
  {
    forall m | NoTripleNewline(m) ensures NoTripleNewline(FixMath(m)) && NoTripleNewline(InlineRepair(m)) {
      FixMathKeepsNoTripleNewline(m);
    }
    DollarPassKeepsNoTripleNewline(InlineRepair, InlineMath, s);
    BlockPassKeepsNoTripleNewline(FixMath, BlockMath, ReplaceAll(s, InlineMath));
  }

  // ---------------------------------------------------------------------
  // processContent

  /** The reply as shown: the apology for empty or non-string content, else
      the text stripped of code and tags, with runs of blank lines collapsed,
      trimmed, and its math repaired and converted. */
  function ProcessContent(content: Json): (r: string)
    ensures !(content.JStr? && content.s != []) ==> r == Apology
    ensures NoTripleNewline(r)
  {
    if content.JStr? && content.s != [] then
      var stripped := StripCode(content.s);
      var collapsed := Trim(ReplaceAll(stripped, NewlineRun));
      CollapsedHasNoTripleNewline(stripped);
      FixLatexMathKeepsNoTripleNewline(collapsed);
      ConvertKeepsNoTripleNewline(FixLatexMath(collapsed));
      ConvertPlainTextMath(FixLatexMath(collapsed))
    else
      ApologyHasNoLineFeed();
      NoNewlineAtAll(Apology);
      Apology
  }
}
