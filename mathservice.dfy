/**
 * The math service: `renderMath` hands cleaned TeX to a renderer and wraps
 * what comes back, `cleanTeXString` repairs common slips in TeX, and
 * `formatContent` turns a tutor reply into HTML with a fixed chain of
 * replacements: math in four delimiter forms, chemical equations, note
 * blocks, key points, tables, code blocks, headings, emphasis, highlights
 * and paragraphs.
 */
module MathService {
  import opened Wrappers
  import opened Text
  import opened Scan
  import opened Patterns
  import opened TexRules

  // ---------------------------------------------------------------------
  // cleanTeXString

  /** `<[^>]*>`, removed: from a `<` to the next `>`, over line ends. */
  function TagAt(s: string, i: nat): (h: Option<Hit>)
    ensures h.Some? <==> i < |s| && s[i] == '<' && IndexFrom(s, i + 1, '>').Some?
    ensures h.Some? ==> h.value == Hit(IndexFrom(s, i + 1, '>').value + 1 - i, "")
  {
    if i < |s| && s[i] == '<' then
      match IndexFrom(s, i + 1, '>')
      case Some(k) => Some(Hit(k + 1 - i, ""))
      case None => None
    else None
  }

  /** An ASCII digit directly followed by an ASCII letter. */
  predicate DigitLetter(a: char, b: char) { IsDigit(a) && IsLetter(b) }

  /** `([0-9])([a-zA-Z])` replaced by `$1 $2`. */
  function SpaceAfterDigit(s: string, i: nat): (h: Option<Hit>)
    ensures h.Some? <==> i + 1 < |s| && DigitLetter(s[i], s[i + 1])
    ensures h.Some? ==> h.value == Hit(2, [s[i], ' ', s[i + 1]])
  {
    if i + 1 < |s| && DigitLetter(s[i], s[i + 1]) then Some(Hit(2, [s[i], ' ', s[i + 1]])) else None
  }

  const FunctionNames: seq<string> :=
    ["sin", "cos", "tan", "log", "ln", "lim", "max", "min", "sup", "inf", "det", "gcd", "lcm"]
  const GreekNames: seq<string> :=
    ["alpha", "beta", "gamma", "delta", "epsilon", "zeta", "eta", "theta", "iota", "kappa",
     "lambda", "mu", "nu", "xi", "pi", "rho", "sigma", "tau", "upsilon", "phi", "chi", "psi", "omega"]
  const OperatorNames: seq<string> :=
    ["sum", "prod", "int", "oint", "partial", "nabla", "infty", "pm", "mp", "times", "div",
     "cdot", "circ", "bullet", "oplus", "otimes"]

  const Tags: Rule := TagAt
  const DigitSpacing: Rule := SpaceAfterDigit
  const Functions: Rule := (s: string, i: nat) => BackslashName(FunctionNames, s, i)
  const Fracs: Rule := (s: string, i: nat) => BackslashCommand("frac", s, i)
  const Roots: Rule := (s: string, i: nat) => BackslashCommand("sqrt", s, i)
  /** The Greek letters, compared without regard to case and with nothing
      required after the name. */
  const Greeks: Rule := (s: string, i: nat) => BackslashPrefix(GreekNames, true, s, i)
  const Operators: Rule := (s: string, i: nat) => BackslashPrefix(OperatorNames, false, s, i)
  const Scripts: Rule := ScriptBraces
  const Texts: Rule := (s: string, i: nat) => BackslashCommand("text", s, i)
  const Blackboards: Rule := (s: string, i: nat) => BackslashCommand("mathbb", s, i)
  const Calligraphics: Rule := (s: string, i: nat) => BackslashCommand("mathcal", s, i)
  const Frakturs: Rule := (s: string, i: nat) => BackslashCommand("mathfrak", s, i)
  const Romans: Rule := (s: string, i: nat) => BackslashCommand("mathrm", s, i)

  /** A rule that only puts a backslash after the first character it matches. */
  predicate InsertsBackslash(r: Rule, s: string) {
    forall j | 0 <= j < |s| && HitsAt(s, r, j) ::
      r(s, j).value.out == s[j..j + 1] + "\\" + s[j + 1..j + r(s, j).value.len]
  }

  lemma NameRulesInsert(s: string)
    ensures InsertsBackslash(Functions, s) && InsertsBackslash(Fracs, s) && InsertsBackslash(Roots, s)
    ensures InsertsBackslash(Greeks, s) && InsertsBackslash(Operators, s)
  {
    PrefixRulesInsert(s);
  }

  lemma PrefixRulesInsert(s: string)
    ensures InsertsBackslash(Greeks, s) && InsertsBackslash(Operators, s)
  {
  }

  lemma CommandRulesInsert(s: string)
    ensures InsertsBackslash(Texts, s) && InsertsBackslash(Blackboards, s)
    ensures InsertsBackslash(Calligraphics, s) && InsertsBackslash(Frakturs, s) && InsertsBackslash(Romans, s)
  {
  }

  /** A backslash put in after the first character of each match keeps a
      text free of any pair the backslash cannot be part of. */
  lemma BackslashKeepsPairFree(s: string, r: Rule, bad: (char, char) -> bool)
    requires InsertsBackslash(r, s) && PairFree(s, bad)
    requires FreeBefore('\\', bad) && FreeAfter('\\', bad)
    ensures PairFree(ReplaceAll(s, r), bad)
  {
    forall j | 0 <= j < |s| ensures HitFits(s, r, j, bad) {
      if HitsAt(s, r, j) {
        var e := j + r(s, j).value.len;
        var o := r(s, j).value.out;
        var head := s[j..j + 1] + "\\";
        assert o == head + s[j + 1..e];
        assert PairFree(head, bad) by {
          assert head == [s[j], '\\'];
        }
        PairFreeSlice(s, j + 1, e, bad);
        PairFreeAppend(head, s[j + 1..e], bad);
        assert o[0] == s[j];
        if e == j + 1 {
          assert o[|o| - 1] == '\\';
        } else {
          assert o[|o| - 1] == s[e - 1];
        }
      }
    }
    ReplaceKeepsPairFree(s, r, 0, bad);
  }

  /** The brace pass keeps a text free of digits directly before letters. */
  lemma BracesKeepDigitsApart(s: string)
    requires PairFree(s, DigitLetter)
    ensures PairFree(ReplaceAll(s, Scripts), DigitLetter)
  {
    forall j | 0 <= j < |s| ensures HitFits(s, Scripts, j, DigitLetter) {
      if HitsAt(s, Scripts, j) {
        var o := Scripts(s, j).value.out;
        assert o == [s[j], '{', s[j + 1], '}'];
        assert FreeAfter('}', DigitLetter);
      }
    }
    ReplaceKeepsPairFree(s, Scripts, 0, DigitLetter);
  }

  /** The spacing pass leaves no digit directly before a letter. */
  lemma SpacingSeparates(s: string)
    ensures PairFree(ReplaceAll(s, DigitSpacing), DigitLetter)
  {
    forall j | 0 <= j < |s| && HitsAt(s, DigitSpacing, j)
      ensures var o := DigitSpacing(s, j).value.out;
        o != [] && o[0] == s[j] && PairFree(o, DigitLetter) && FreeAfter(o[|o| - 1], DigitLetter)
    {
    }
    ReplaceBreaksPairs(s, DigitSpacing, 0, DigitLetter);
  }

  /** The backslash passes between the spacing pass and the brace pass. */
  function NamePasses(t: string): string {
    var named := ReplaceAll(t, Functions);
    var fracs := ReplaceAll(named, Fracs);
    var roots := ReplaceAll(fracs, Roots);
    var greek := ReplaceAll(roots, Greeks);
    ReplaceAll(greek, Operators)
  }

  /** The backslash passes after the brace pass. */
  function CommandPasses(t: string): string {
    var texts := ReplaceAll(t, Texts);
    var bb := ReplaceAll(texts, Blackboards);
    var cal := ReplaceAll(bb, Calligraphics);
    var frak := ReplaceAll(cal, Frakturs);
    ReplaceAll(frak, Romans)
  }

  lemma NamePassesKeepPairFree(t: string, bad: (char, char) -> bool)
    requires PairFree(t, bad) && FreeBefore('\\', bad) && FreeAfter('\\', bad)
    ensures PairFree(NamePasses(t), bad)
  {
    var named := ReplaceAll(t, Functions);
    var fracs := ReplaceAll(named, Fracs);
    var roots := ReplaceAll(fracs, Roots);
    var greek := ReplaceAll(roots, Greeks);
    NameRulesInsert(t);
    BackslashKeepsPairFree(t, Functions, bad);
    NameRulesInsert(named);
    BackslashKeepsPairFree(named, Fracs, bad);
    NameRulesInsert(fracs);
    BackslashKeepsPairFree(fracs, Roots, bad);
    NameRulesInsert(roots);
    BackslashKeepsPairFree(roots, Greeks, bad);
    NameRulesInsert(greek);
    BackslashKeepsPairFree(greek, Operators, bad);
  }

  lemma CommandPassesKeepPairFree(t: string, bad: (char, char) -> bool)
    requires PairFree(t, bad) && FreeBefore('\\', bad) && FreeAfter('\\', bad)
    ensures PairFree(CommandPasses(t), bad)
  {
    var texts := ReplaceAll(t, Texts);
    var bb := ReplaceAll(texts, Blackboards);
    var cal := ReplaceAll(bb, Calligraphics);
    var frak := ReplaceAll(cal, Frakturs);
    CommandRulesInsert(t);
    BackslashKeepsPairFree(t, Texts, bad);
    CommandRulesInsert(texts);
    BackslashKeepsPairFree(texts, Blackboards, bad);
    CommandRulesInsert(bb);
    BackslashKeepsPairFree(bb, Calligraphics, bad);
    CommandRulesInsert(cal);
    BackslashKeepsPairFree(cal, Frakturs, bad);
    CommandRulesInsert(frak);
    BackslashKeepsPairFree(frak, Romans, bad);
  }

  /** `cleanTeXString`: tags removed, then digits spaced from letters, then
      the backslash and brace repairs. Whatever the input, no digit is left
      directly before a letter and no `_` or `^` directly before a letter or
      digit, because every later pass only inserts `\`, `{` and `}`. */
  function CleanTeX(tex: string): (r: string)
    ensures PairFree(r, DigitLetter)
    ensures NoBareScript(r)
  {
    var stripped := ReplaceAll(tex, Tags);
    var spaced := ReplaceAll(stripped, DigitSpacing);
    var named := NamePasses(spaced);
    var braced := ReplaceAll(named, Scripts);
    SpacingSeparates(stripped);
    assert FreeBefore('\\', DigitLetter) && FreeAfter('\\', DigitLetter);
    NamePassesKeepPairFree(spaced, DigitLetter);
    BracesKeepDigitsApart(named);
    ScriptBracesLeaveNoBareScript(named, 0);
    assert FreeBefore('\\', BareScript) && FreeAfter('\\', BareScript);
    CommandPassesKeepPairFree(braced, DigitLetter);
    CommandPassesKeepPairFree(braced, BareScript);
    CommandPasses(braced)
  }

  /** No `<` anywhere before a `>`. */
  predicate NoTagLeft(t: string) {
    forall a, b | 0 <= a < b < |t| :: !(t[a] == '<' && t[b] == '>')
  }

  /** The tag pass leaves no `<` before a `>`: a `<` it keeps has no `>`
      anywhere after it, and removing text brings none closer. */
  lemma {:induction false} TagsRemoved(s: string, i: nat)
    requires i <= |s|
    ensures NoTagLeft(ReplaceFrom(s, Tags, i))
    decreases |s| - i
  {
    if i < |s| {
      if HitsAt(s, Tags, i) {
        TagsRemoved(s, i + Tags(s, i).value.len);
        TagsHitStep(s, i);
      } else {
        TagsRemoved(s, i + 1);
        TagsMissStep(s, i);
      }
    }
  }

  /** A removed tag leaves what follows as it is. */
  lemma TagsHitStep(s: string, i: nat)
    requires HitsAt(s, Tags, i)
    requires NoTagLeft(ReplaceFrom(s, Tags, i + Tags(s, i).value.len))
    ensures NoTagLeft(ReplaceFrom(s, Tags, i))
  {
    ReplaceAtHit(s, Tags, i);
    assert ReplaceFrom(s, Tags, i) == [] + ReplaceFrom(s, Tags, i + Tags(s, i).value.len);
  }

  /** A kept character is no `<` with a `>` after it. */
  lemma TagsMissStep(s: string, i: nat)
    requires i < |s| && !HitsAt(s, Tags, i)
    requires NoTagLeft(ReplaceFrom(s, Tags, i + 1))
    ensures NoTagLeft(ReplaceFrom(s, Tags, i))
  {
    var t := ReplaceFrom(s, Tags, i + 1);
    var r := ReplaceFrom(s, Tags, i);
    ReplaceAtMiss(s, Tags, i);
    assert r == [s[i]] + t;
    if s[i] == '<' {
      KeptOpener(s, i);
    }
    forall a, b | 0 <= a < b < |r| ensures !(r[a] == '<' && r[b] == '>') {
      assert r[b] == t[b - 1];
      if a > 0 {
        assert r[a] == t[a - 1];
      } else if s[i] == '<' {
        assert t[b - 1] in t;
        assert NotCloser(t[b - 1]);
      } else {
        assert r[a] == s[i];
      }
    }
  }

  predicate NotCloser(c: char) { c != '>' }

  /** A `<` the pass keeps has no `>` after it, in the input or the output. */
  lemma KeptOpener(s: string, i: nat)
    requires i < |s| && s[i] == '<' && !HitsAt(s, Tags, i)
    ensures forall c | c in ReplaceFrom(s, Tags, i + 1) :: NotCloser(c)
  {
    assert IndexFrom(s, i + 1, '>').None?;
    ReplaceKeepsCharProperty(s, Tags, i + 1, NotCloser);
  }

  lemma BackslashKeepsHead(t: string, r: Rule)
    requires t != [] && InsertsBackslash(r, t)
    ensures ReplaceAll(t, r) != [] && ReplaceAll(t, r)[0] == t[0]
  {
    ReplaceKeepsHead(t, r);
  }

  /** Every pass keeps the first character unless it opens a tag: a backslash
      only ever goes in after a character, so a name at the very start, as in
      a trimmed `sin(x)`, stays without one. */
  lemma LeadingNameStaysBare(tex: string)
    requires tex != [] && tex[0] != '<'
    ensures CleanTeX(tex) != [] && CleanTeX(tex)[0] == tex[0]
  {
    var stripped := ReplaceAll(tex, Tags);
    ReplaceKeepsHead(tex, Tags);
    var spaced := ReplaceAll(stripped, DigitSpacing);
    ReplaceKeepsHead(stripped, DigitSpacing);
    var named := ReplaceAll(spaced, Functions);
    NameRulesInsert(spaced);
    BackslashKeepsHead(spaced, Functions);
    var fracs := ReplaceAll(named, Fracs);
    NameRulesInsert(named);
    BackslashKeepsHead(named, Fracs);
    var roots := ReplaceAll(fracs, Roots);
    NameRulesInsert(fracs);
    BackslashKeepsHead(fracs, Roots);
    var greek := ReplaceAll(roots, Greeks);
    NameRulesInsert(roots);
    BackslashKeepsHead(roots, Greeks);
    var ops := ReplaceAll(greek, Operators);
    NameRulesInsert(greek);
    BackslashKeepsHead(greek, Operators);
    assert ops == NamePasses(spaced);
    var braced := ReplaceAll(ops, Scripts);
    ReplaceKeepsHead(ops, Scripts);
    var texts := ReplaceAll(braced, Texts);
    CommandRulesInsert(braced);
    BackslashKeepsHead(braced, Texts);
    var bb := ReplaceAll(texts, Blackboards);
    CommandRulesInsert(texts);
    BackslashKeepsHead(texts, Blackboards);
    var cal := ReplaceAll(bb, Calligraphics);
    CommandRulesInsert(bb);
    BackslashKeepsHead(bb, Calligraphics);
    var frak := ReplaceAll(cal, Frakturs);
    CommandRulesInsert(cal);
    BackslashKeepsHead(cal, Frakturs);
    CommandRulesInsert(frak);
    BackslashKeepsHead(frak, Romans);
  }

  /** Names that do not occur at `j` are passed over. */
  lemma {:induction false} FoldedSkip(s: string, j: nat, names: seq<string>, k: nat)
    requires k <= |names|
    requires forall m | 0 <= m < k :: !AtFolded(s, j, names[m])
    ensures FirstNameFolded(s, j, names) == FirstNameFolded(s, j, names[k..])
  {
    if k > 0 {
      assert !AtFolded(s, j, names[0]);
      FoldedSkip(s, j, names[1..], k - 1);
      assert names[1..][k - 1..] == names[k..];
    }
  }

  lemma EtaAt()
    ensures AtFolded("\\beta", 2, "eta")
  {
    var s := "\\beta";
    assert s[2] == 'e' && s[3] == 't' && s[4] == 'a' && |s| == 5;
  }

  /** In `\beta` the first Greek name after the `b` is `eta`: the six names
      tried before it are too long to fit. */
  lemma EtaInBeta()
    ensures FirstNameFolded("\\beta", 2, GreekNames) == Some("eta")
  {
    var s := "\\beta";
    assert forall m | 0 <= m < 6 :: |GreekNames[m]| > 3;
    FoldedSkip(s, 2, GreekNames, 6);
    assert GreekNames[6..][0] == "eta";
    EtaAt();
  }

  lemma BetaPieces()
    ensures "\\beta"[1] != '\\' && "\\beta"[1..2] + "\\" + "\\beta"[2..5] == "b\\eta"
    ensures ["\\beta"[0]] + "b\\eta" == "\\b\\eta"
  {
  }

  lemma BetaHit()
    ensures Greeks("\\beta", 1) == Some(Hit(4, "b\\eta"))
  {
    var s := "\\beta";
    EtaInBeta();
    BetaPieces();
    var h := BackslashPrefix(GreekNames, true, s, 1);
    assert FirstName(s, 2, GreekNames, true) == Some("eta");
    assert h.Some? && h.value.len == 4;
    assert h.value.out == s[1..2] + "\\" + s[2..5];
  }

  lemma BetaTail()
    ensures ReplaceFrom("\\beta", Greeks, 1) == "b\\eta"
  {
    var s := "\\beta";
    BetaHit();
    assert ReplaceFrom(s, Greeks, 5) == [];
  }

  /** The Greek pass has no guard after the name and folds case, so it finds
      `eta` inside an escaped `\beta` and splits it into `\b\eta`; a second
      cleaning would split the `\eta` it leaves in turn. */
  lemma EscapedBetaSplit()
    ensures ReplaceAll("\\beta", Greeks) == "\\b\\eta"
  {
    var s := "\\beta";
    BetaTail();
    assert !HitsAt(s, Greeks, 0);
    assert ReplaceFrom(s, Greeks, 0) == [s[0]] + ReplaceFrom(s, Greeks, 1);
    BetaPieces();
  }

  // ---------------------------------------------------------------------
  // renderMath

  /** The renderer: KaTeX's `renderToString` for the given display mode,
      `None` where it throws. */
  type Renderer = (string, bool) -> Option<string>

  const EmptyMath: string := "<span class=\"math-error\">" + "[Empty math expression]</span>"

  /** The wrapper around rendered HTML, ... */
  function Rendered(isBlock: bool, html: string): string {
    if isBlock then "<div class=\"katex-display\">" + html + "</div>"
    else "<span class=\"katex-inline\">" + html + "</span>"
  }

  /** ... and the MathJax delimiters the TeX falls back to when rendering throws. */
  function Fallback(isBlock: bool, tex: string): string {
    if isBlock then "<div class=\"math-block\">\\[" + tex + "\\]</div>"
    else "<span class=\"math-inline\">\\(" + tex + "\\)</span>"
  }

  lemma NeitherIsEmptyMath(isBlock: bool, x: string)
    ensures Rendered(isBlock, x) != EmptyMath && Fallback(isBlock, x) != EmptyMath
  {
    if isBlock {
      assert Rendered(isBlock, x)[1] == 'd' && Fallback(isBlock, x)[1] == 'd' && EmptyMath[1] == 's';
    } else {
      assert Rendered(isBlock, x)[13] == 'k' && EmptyMath[13] == 'm';
      assert Fallback(isBlock, x)[18] == 'i' && EmptyMath[18] == 'e';
    }
  }

  /** `renderMath`: blank TeX gives the error span and nothing else does;
      otherwise the cleaned TeX is rendered and wrapped for its display mode,
      and when the renderer throws, the cleaned TeX goes back between
      MathJax delimiters instead. */
  function RenderMath(katex: Renderer, tex: string, isBlock: bool): (r: string)
    ensures r == EmptyMath <==> Trim(tex) == []
    ensures Trim(tex) != [] && katex(CleanTeX(tex), isBlock).Some? ==>
      r == Rendered(isBlock, katex(CleanTeX(tex), isBlock).value)
    ensures Trim(tex) != [] && katex(CleanTeX(tex), isBlock).None? ==>
      r == Fallback(isBlock, CleanTeX(tex))
  {
    if Trim(tex) == [] then EmptyMath
    else
      var t := CleanTeX(tex);
      match katex(t, isBlock)
      case Some(html) => NeitherIsEmptyMath(isBlock, html); Rendered(isBlock, html)
      case None => NeitherIsEmptyMath(isBlock, t); Fallback(isBlock, t)
  }
}
