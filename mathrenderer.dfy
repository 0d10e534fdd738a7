/**
 * `formatContent` of the math renderer (src/services/mathRenderer.ts): a
 * lighter pipeline that only marks math up for the browser's typesetter.
 * Leftover placeholders become `x`, then `[MATH]`, `$`, `\[` and `\(`
 * spans are wrapped in `math-block` divisions and `math-inline` spans
 * whose bodies keep TeX's own `\[ \]` and `\( \)` delimiters.
 */
module MathRenderer {
  import opened Wrappers
  import opened Text
  import opened Scan
  import opened Patterns
  import TexRules
  import Markdown

  const BlockOpen: string := "<div class=\"math-block\">"
  const InlineOpen: string := "<span class=\"math-inline\">"

  /** A display formula for the typesetter. */
  function BlockDiv(t: string): string {
    BlockOpen + ("\\[" + t + "\\]") + "</div>"
  }

  /** An inline formula for the typesetter. */
  function InlineSpan(t: string): string {
    InlineOpen + ("\\(" + t + "\\)") + "</span>"
  }

  /** `MATH_PLACEHOLDER_\d+`, replaced by `x`. */
  const Placeholders: Rule := Markdown.LoosePlaceholder

  /** A display formula of the trimmed body. */
  function BlockOf(b: string): string { BlockDiv(Trim(b)) }

  /** An inline formula of the trimmed body. */
  function InlineOf(b: string): string { InlineSpan(Trim(b)) }

  /** `\[MATH\]([\s\S]*?)\[\/MATH\]` */
  function MathBlockAt(s: string, i: nat): Option<Hit> { Enclosed(s, i, "[MATH]", "[/MATH]", BlockOf) }

  const MathBlocks: Rule := MathBlockAt

  /** `\$(.*?)\$`: a bare amount is kept with its dollars. */
  function DollarAt(s: string, i: nat): Option<Hit> { Dollared(s, i, DollarOut) }

  /** `\$(.*?)\$`, the match written as `f` of itself and of its body. */
  function Dollared(s: string, i: nat, f: (string, string) -> string): Option<Hit> {
    match BodyEnd(s, i, "$", "$", false)
    case Some(k) => Some(Hit(k + 1 - i, f(s[i..k + 1], s[i + 1..k])))
    case None => None
  }

  /** What a match `t` with body `b` is written as: kept when the body is an
      amount, otherwise the trimmed body as an inline formula. */
  function DollarOut(t: string, b: string): string {
    if TexRules.IsAmount(b) then t else InlineSpan(Trim(b))
  }

  const Dollars: Rule := DollarAt

  /** `\\\[([\s\S]*?)\\\]` */
  function TexBlockAt(s: string, i: nat): Option<Hit> { Enclosed(s, i, "\\[", "\\]", BlockOf) }

  const TexBlocks: Rule := TexBlockAt

  /** `\\\(([\s\S]*?)\\\)` */
  function TexInlineAt(s: string, i: nat): Option<Hit> { Enclosed(s, i, "\\(", "\\)", InlineOf) }

  const TexInlines: Rule := TexInlineAt

  /** The four math passes, in the source's order. */
  function MathPasses(s: string): string {
    ReplaceAll(ReplaceAll(ReplaceAll(ReplaceAll(s, MathBlocks), Dollars), TexBlocks), TexInlines)
  }

  /** `formatContent`: empty content gives the empty string; otherwise the
      placeholders go first and the math passes follow. Each pass copies the
      text outside its matches; a placeholder becomes `x`, an amount between
      dollars stays, and every other span becomes a `math-block` division
      or a `math-inline` span of its trimmed body. */
  function FormatContent(content: string): (r: string)
    ensures content == [] ==> r == []
    ensures content != [] ==>
      var t1 := ReplaceAll(content, Placeholders);
      var t2 := ReplaceAll(t1, MathBlocks);
      var t3 := ReplaceAll(t2, Dollars);
      var t4 := ReplaceAll(t3, TexBlocks);
      && Spells(content, Placeholders, t1, PlaceholderMark)
      && Spells(t1, MathBlocks, t2, MathBlockMark)
      && Spells(t2, Dollars, t3, DollarMark)
      && Spells(t3, TexBlocks, t4, TexBlockMark)
      && Spells(t4, TexInlines, r, TexInlineMark)
  {
    if content == [] then []
    else
      var t1 := ReplaceAll(content, Placeholders);
      var t2 := ReplaceAll(t1, MathBlocks);
      var t3 := ReplaceAll(t2, Dollars);
      var t4 := ReplaceAll(t3, TexBlocks);
      PlaceholdersSpelled(content);
      MathBlocksSpelled(t1);
      DollarsSpelled(t2);
      TexBlocksSpelled(t3);
      TexInlinesSpelled(t4);
      MathPasses(t1)
  }

  // ---------------------------------------------------------------------
  // What each pass writes

  /** A placeholder match: `MATH_PLACEHOLDER_` and its digits, written as `x`. */
  predicate PlaceholderMark(p: Piece) {
    p.Swapped? ==>
      && |p.text| > 17 && p.text[..17] == "MATH_PLACEHOLDER_" && AllDigits(p.text[17..])
      && p.out == "x"
  }

  /** A match from `open` to `close`, written as `wrap` of its trimmed body. */
  predicate Wrapped(p: Piece, open: string, close: string, wrap: string -> string) {
    p.Swapped? ==>
      && |open| + |close| <= |p.text|
      && p.text[..|open|] == open && p.text[|p.text| - |close|..] == close
      && p.out == wrap(Trim(p.text[|open|..|p.text| - |close|]))
  }

  predicate MathBlockMark(p: Piece) { Wrapped(p, "[MATH]", "[/MATH]", BlockDiv) }
  predicate TexBlockMark(p: Piece) { Wrapped(p, "\\[", "\\]", BlockDiv) }
  predicate TexInlineMark(p: Piece) { Wrapped(p, "\\(", "\\)", InlineSpan) }

  /** A dollar match: an amount kept as it is, any other body written as an
      inline formula. */
  predicate DollarMark(p: Piece) { DollarMarkOf(p, DollarOut) }

  predicate DollarMarkOf(p: Piece, f: (string, string) -> string) {
    p.Swapped? ==>
      && 2 <= |p.text| && p.text[0] == '$' && p.text[|p.text| - 1] == '$'
      && p.out == f(p.text, p.text[1..|p.text| - 1])
  }

  /** A match of `open([\s\S]*?)close` is `open`, the body and `close`,
      and is written as `f` of the body. */
  lemma EnclosedPiece(s: string, p: Piece, open: string, close: string, f: string -> string)
    requires |close| > 0 && p.Swapped? && Enclosed(s, p.at, open, close, f).Some?
    requires var h := Enclosed(s, p.at, open, close, f).value;
      p.at + h.len <= |s| && p.text == s[p.at..p.at + h.len] && p.out == h.out
    ensures |open| + |close| <= |p.text|
    ensures p.text[..|open|] == open && p.text[|p.text| - |close|..] == close
    ensures p.out == f(p.text[|open|..|p.text| - |close|])
  {
    var k := BodyEnd(s, p.at, open, close, true).value;
    var t := p.text;
    assert t == s[p.at..k + |close|];
    assert t[..|open|] == s[p.at..p.at + |open|];
    assert t[|t| - |close|..] == s[k..k + |close|];
    assert t[|open|..|t| - |close|] == s[p.at + |open|..k];
  }

  lemma PlaceholdersPiece(s: string, p: Piece)
    requires Faithful(s, Placeholders, p)
    ensures PlaceholderMark(p)
  {
    if p.Swapped? {
      var i := p.at;
      var e := DigitEnd(s, i + 17);
      var t := p.text;
      assert t == s[i..e];
      assert t[..17] == s[i..i + 17];
      assert forall m | 17 <= m < |t| :: t[m] == s[i + m];
    }
  }

  lemma PlaceholdersSpelled(s: string)
    ensures Spells(s, Placeholders, ReplaceAll(s, Placeholders), PlaceholderMark)
  {
    var ps := PiecesFrom(s, Placeholders, 0);
    PiecesSpell(s, Placeholders, 0);
    forall k | 0 <= k < |ps| ensures PlaceholderMark(ps[k]) {
      PlaceholdersPiece(s, ps[k]);
    }
  }

  lemma MathBlocksPiece(s: string, p: Piece)
    requires Faithful(s, MathBlocks, p)
    ensures MathBlockMark(p)
  {
    if p.Swapped? {
      EnclosedPiece(s, p, "[MATH]", "[/MATH]", BlockOf);
    }
  }

  lemma MathBlocksSpelled(s: string)
    ensures Spells(s, MathBlocks, ReplaceAll(s, MathBlocks), MathBlockMark)
  {
    var ps := PiecesFrom(s, MathBlocks, 0);
    PiecesSpell(s, MathBlocks, 0);
    forall k | 0 <= k < |ps| ensures MathBlockMark(ps[k]) {
      MathBlocksPiece(s, ps[k]);
    }
  }

  lemma TexBlocksPiece(s: string, p: Piece)
    requires Faithful(s, TexBlocks, p)
    ensures TexBlockMark(p)
  {
    if p.Swapped? {
      EnclosedPiece(s, p, "\\[", "\\]", BlockOf);
    }
  }

  lemma TexBlocksSpelled(s: string)
    ensures Spells(s, TexBlocks, ReplaceAll(s, TexBlocks), TexBlockMark)
  {
    var ps := PiecesFrom(s, TexBlocks, 0);
    PiecesSpell(s, TexBlocks, 0);
    forall k | 0 <= k < |ps| ensures TexBlockMark(ps[k]) {
      TexBlocksPiece(s, ps[k]);
    }
  }

  lemma TexInlinesPiece(s: string, p: Piece)
    requires Faithful(s, TexInlines, p)
    ensures TexInlineMark(p)
  {
    if p.Swapped? {
      EnclosedPiece(s, p, "\\(", "\\)", InlineOf);
    }
  }

  lemma TexInlinesSpelled(s: string)
    ensures Spells(s, TexInlines, ReplaceAll(s, TexInlines), TexInlineMark)
  {
    var ps := PiecesFrom(s, TexInlines, 0);
    PiecesSpell(s, TexInlines, 0);
    forall k | 0 <= k < |ps| ensures TexInlineMark(ps[k]) {
      TexInlinesPiece(s, ps[k]);
    }
  }

  lemma DollarsPiece(s: string, p: Piece)
    requires Faithful(s, Dollars, p)
    ensures DollarMark(p)
  {
    if p.Swapped? {
      assert Dollars(s, p.at) == Dollared(s, p.at, DollarOut);
      DollaredPiece(s, p, DollarOut);
    }
  }

  /** A match from one `$` to the next is written as `f` of itself and of
      what lies between the two. */
  lemma DollaredPiece(s: string, p: Piece, f: (string, string) -> string)
    requires p.Swapped? && Dollared(s, p.at, f).Some?
    requires p.at + Dollared(s, p.at, f).value.len <= |s|
    requires p.text == s[p.at..p.at + Dollared(s, p.at, f).value.len]
    requires p.out == Dollared(s, p.at, f).value.out
    ensures DollarMarkOf(p, f)
  {
    var k := BodyEnd(s, p.at, "$", "$", false).value;
    AtHead(s, p.at, "$", 0);
    AtHead(s, k, "$", 0);
    assert p.text == s[p.at..k + 1];
    Inside(s, p.at, k + 1);
  }

  /** A slice without its first and last character. */
  lemma Inside(s: string, a: nat, b: nat)
    requires a + 2 <= b <= |s|
    ensures s[a..b][1..b - a - 1] == s[a + 1..b - 1]
  {
    var t := s[a..b];
    var u, v := t[1..b - a - 1], s[a + 1..b - 1];
    forall j | 0 <= j < |u| ensures u[j] == v[j] {
      assert u[j] == t[j + 1] == s[a + j + 1];
    }
  }

  lemma DollarsSpelled(s: string)
    ensures Spells(s, Dollars, ReplaceAll(s, Dollars), DollarMark)
  {
    var ps := PiecesFrom(s, Dollars, 0);
    PiecesSpell(s, Dollars, 0);
    forall k | 0 <= k < |ps| ensures DollarMark(ps[k]) {
      DollarsPiece(s, ps[k]);
    }
  }

  // ---------------------------------------------------------------------
  // Properties

  /** Text with no `$`, `\` or `[` is only touched by the placeholder pass:
      none of the math passes can open there. */
  lemma PlainTextUntouched(s: string)
    requires '$' !in s && '\\' !in s && '[' !in s
    ensures FormatContent(s) == ReplaceAll(s, Placeholders)
  {
    var t := ReplaceAll(s, Placeholders);
    ReplaceKeepsCharProperty(s, Placeholders, 0, c => c != '$' && c != '\\' && c != '[');
    assert '$' !in t && '\\' !in t && '[' !in t;
    NoOpenerNoHit(t, MathBlocks, "[MATH]", 0);
    NoOpenerNoHit(t, Dollars, "$", 0);
    NoOpenerNoHit(t, TexBlocks, "\\[", 0);
    NoOpenerNoHit(t, TexInlines, "\\(", 0);
  }

  /** A numbered placeholder is replaced by `x`. */
  lemma PlaceholderBecomesX(d: string)
    requires d != [] && forall k | 0 <= k < |d| :: IsDigit(d[k])
    ensures FormatContent("MATH_PLACEHOLDER_" + d) == "x"
  {
    var s := "MATH_PLACEHOLDER_" + d;
    assert At(s, 0, "MATH_PLACEHOLDER_");
    assert s[17] == d[0];
    assert DigitEnd(s, 17) == |s| by {
      forall k | 17 <= k < |s| ensures IsDigit(s[k]) {
        assert s[k] == d[k - 17];
      }
      DigitRunToEnd(s, 17);
    }
    ReplaceWhole(s, Placeholders);
    PlainTextUntouched("x");
  }

  lemma {:induction false} DigitRunToEnd(s: string, i: nat)
    requires i <= |s| && forall k | i <= k < |s| :: IsDigit(s[k])
    ensures DigitEnd(s, i) == |s|
    decreases |s| - i
  {
    if i < |s| {
      DigitRunToEnd(s, i + 1);
    }
  }

  /** An amount between dollars, such as `$5$` or `$3.50$`, is left as it is. */
  lemma CurrencyKept(b: string)
    requires TexRules.IsAmount(b)
    requires '$' !in b && '\\' !in b && '[' !in b && '_' !in b && NoLineTerminator(b)
    ensures FormatContent("$" + b + "$") == "$" + b + "$"
  {
    var s := "$" + b + "$";
    assert '_' !in s && '[' !in s && '\\' !in s;
    PlaceholdersOpen(s);
    NoOpenerNoHit(s, Placeholders, "MATH_PLACEHOLDER_", 4);
    MathBlocksOpen(s);
    NoOpenerNoHit(s, MathBlocks, "[MATH]", 0);
    DollarSpan(b);
    assert ReplaceAll(s, Dollars) == s;
    TexBlocksOpen(s);
    NoOpenerNoHit(s, TexBlocks, "\\[", 0);
    TexInlinesOpen(s);
    NoOpenerNoHit(s, TexInlines, "\\(", 0);
    assert MathPasses(s) == s;
  }

  /** `$b$` is one match of the dollar pass, with body `b`. */
  lemma DollarSpan(b: string)
    requires '$' !in b && NoLineTerminator(b)
    ensures Dollars("$" + b + "$", 0) == DollarAt("$" + b + "$", 0)
    ensures BodyEnd("$" + b + "$", 0, "$", "$", false) == Some(|b| + 1)
    ensures ("$" + b + "$")[1..|b| + 1] == b
    ensures ReplaceAll("$" + b + "$", Dollars) ==
      if TexRules.IsAmount(b) then "$" + b + "$" else InlineSpan(Trim(b))
  {
    var s := "$" + b + "$";
    DollarCloses(b);
    assert s[1..|b| + 1] == b;
    assert s[0..|b| + 2] == s;
    assert Dollars(s, 0) == Some(Hit(|s|, DollarOut(s, b)));
    ReplaceWhole(s, Dollars);
  }

  /** The first `$` after the opening one of `$b$` is its last character. */
  lemma DollarCloses(b: string)
    requires '$' !in b && NoLineTerminator(b)
    ensures BodyEnd("$" + b + "$", 0, "$", "$", false) == Some(|b| + 1)
  {
    var s := "$" + b + "$";
    forall m | 1 <= m < |b| + 1 ensures !At(s, m, "$") {
      AtHead(s, m, "$", 0);
      assert s[m] == b[m - 1];
    }
    forall m | 1 <= m < |b| + 1 ensures !IsLineTerminator(s[m]) {
      assert s[m] == b[m - 1];
    }
    LazyUntilFinds(s, 1, "$", false, |b| + 1);
  }

  /** None of the characters that can start or close a pass here. */
  predicate Quiet(c: char) {
    c != '_' && c != '[' && c != '$' && c != '\\' && c != '('
  }

  predicate AllQuiet(t: string) {
    forall c | c in t :: Quiet(c)
  }

  /** `[MATH]b[/MATH]` is wrapped twice: the `[MATH]` pass writes a display
      formula with `\[ \]` delimiters, and the `\[` pass that follows finds
      those delimiters and wraps the formula in a second `math-block`
      division. */
  lemma NestedBlock(b: string)
    requires AllQuiet(b)
    ensures FormatContent("[MATH]" + b + "[/MATH]") == BlockOpen + BlockDiv(Trim(b)) + "</div>"
  {
    MathBlockOnce(b);
    QuietTrim(b);
    RewrapBlock(Trim(b));
  }

  lemma MathBlockOnce(b: string)
    requires '_' !in b && '[' !in b
    ensures ReplaceAll(ReplaceAll("[MATH]" + b + "[/MATH]", Placeholders), MathBlocks) == BlockDiv(Trim(b))
  {
    var s := "[MATH]" + b + "[/MATH]";
    assert s == "[MATH]" + (b + "[/MATH]");
    assert '_' !in s;
    PlaceholdersOpen(s);
    NoOpenerNoHit(s, Placeholders, "MATH_PLACEHOLDER_", 4);
    MathBlockWhole(b);
  }

  lemma MathBlockWhole(b: string)
    requires '[' !in b
    ensures ReplaceAll("[MATH]" + b + "[/MATH]", MathBlocks) == BlockDiv(Trim(b))
  {
    MathBlockHit(b);
    ReplaceWhole("[MATH]" + b + "[/MATH]", MathBlocks);
  }

  lemma MathBlockHit(b: string)
    requires '[' !in b
    ensures var s := "[MATH]" + b + "[/MATH]"; MathBlocks(s, 0) == Some(Hit(|s|, BlockDiv(Trim(b))))
  {
    var s := "[MATH]" + b + "[/MATH]";
    EnclosedAt([], b, [], "[MATH]", "[/MATH]");
    assert [] + "[MATH]" + b + "[/MATH]" + [] == s;
  }

  lemma QuietTrim(b: string)
    requires AllQuiet(b)
    ensures AllQuiet(Trim(b)) && Trim(Trim(b)) == Trim(b)
  {
    TrimOfTrimmed(Trim(b));
    forall c | c in Trim(b) ensures Quiet(c) {
      TrimWithin(b, c);
    }
  }

  lemma RewrapBlock(u: string)
    requires '$' !in u && '\\' !in u && '(' !in u && Trim(u) == u
    ensures ReplaceAll(ReplaceAll(ReplaceAll(BlockDiv(u), Dollars), TexBlocks), TexInlines) == BlockOpen + BlockDiv(u) + "</div>"
  {
    var t := BlockDiv(u);
    BlockMarkup('$');
    BlockDivLacks(u, '$');
    DollarsOpen(t);
    NoOpenerNoHit(t, Dollars, "$", 0);
    TexBlockOnce(u);
    var w := BlockOpen + BlockDiv(u) + "</div>";
    BlockMarkup('(');
    BlockDivLacks(u, '(');
    assert '(' !in w;
    TexInlinesOpen(w);
    NoOpenerNoHit(w, TexInlines, "\\(", 1);
  }

  lemma BlockDivLacks(u: string, c: char)
    requires c !in u && c !in BlockOpen && c !in "</div>" && c != '\\' && c != '[' && c != ']'
    ensures c !in BlockDiv(u)
  {
  }

  lemma TexBlockOnce(u: string)
    requires '\\' !in u && Trim(u) == u
    ensures ReplaceAll(BlockDiv(u), TexBlocks) == BlockOpen + BlockDiv(u) + "</div>"
  {
    var m := "\\[" + u + "\\]";
    var t := BlockOpen + m + "</div>";
    TexBlockHit(u);
    TexBlocksOpen(t);
    BlockMarkup('\\');
    ReplaceOnce(BlockOpen, m, "</div>", TexBlocks, "\\[");
  }

  lemma TexBlockHit(u: string)
    requires '\\' !in u && Trim(u) == u
    ensures var t := BlockOpen + ("\\[" + u + "\\]") + "</div>";
      && HitsAt(t, TexBlocks, |BlockOpen|) && TexBlocks(t, |BlockOpen|).value.len == |"\\[" + u + "\\]"|
      && TexBlocks(t, |BlockOpen|).value.out == BlockDiv(u)
  {
    var t := BlockOpen + ("\\[" + u + "\\]") + "</div>";
    EnclosedAt(BlockOpen, u, "</div>", "\\[", "\\]");
    assert BlockOpen + "\\[" + u + "\\]" + "</div>" == t;
  }

  lemma MathBlocksOpen(t: string)
    ensures forall j | 0 <= j < |t| && HitsAt(t, MathBlocks, j) :: At(t, j, "[MATH]")
  {
  }

  lemma TexBlocksOpen(t: string)
    ensures forall j | 0 <= j < |t| && HitsAt(t, TexBlocks, j) :: At(t, j, "\\[")
  {
  }

  lemma DollarsOpen(t: string)
    ensures forall j | 0 <= j < |t| && HitsAt(t, Dollars, j) :: At(t, j, "$")
  {
  }

  lemma PlaceholdersOpen(t: string)
    ensures forall j | 0 <= j < |t| && HitsAt(t, Placeholders, j) :: At(t, j, "MATH_PLACEHOLDER_")
  {
  }

  lemma TexInlinesOpen(t: string)
    ensures forall j | 0 <= j < |t| && HitsAt(t, TexInlines, j) :: At(t, j, "\\(")
  {
  }

  /** `$b$` with a formula that is not an amount is wrapped twice as well:
      the `\(` pass finds the delimiters the dollar pass wrote. */
  lemma NestedInline(b: string)
    requires !TexRules.IsAmount(b) && AllQuiet(b) && NoLineTerminator(b)
    ensures FormatContent("$" + b + "$") == InlineOpen + InlineSpan(Trim(b)) + "</span>"
  {
    var s := "$" + b + "$";
    NoOpenerNoHit(s, Placeholders, "MATH_PLACEHOLDER_", 4);
    NoOpenerNoHit(s, MathBlocks, "[MATH]", 0);
    DollarSpan(b);
    QuietTrim(b);
    RewrapInline(Trim(b));
  }

  lemma RewrapInline(u: string)
    requires '[' !in u && '\\' !in u && Trim(u) == u
    ensures ReplaceAll(ReplaceAll(InlineSpan(u), TexBlocks), TexInlines) == InlineOpen + InlineSpan(u) + "</span>"
  {
    var t := InlineSpan(u);
    InlineMarkup('[');
    assert '[' !in t;
    NoOpenerNoHit(t, TexBlocks, "\\[", 1);
    TexInlineOnce(u);
  }

  lemma TexInlineOnce(u: string)
    requires '\\' !in u && Trim(u) == u
    ensures ReplaceAll(InlineSpan(u), TexInlines) == InlineOpen + InlineSpan(u) + "</span>"
  {
    var m := "\\(" + u + "\\)";
    var t := InlineOpen + m + "</span>";
    TexInlineHit(u);
    TexInlinesOpen(t);
    InlineMarkup('\\');
    ReplaceOnce(InlineOpen, m, "</span>", TexInlines, "\\(");
  }

  lemma TexInlineHit(u: string)
    requires '\\' !in u && Trim(u) == u
    ensures var t := InlineOpen + ("\\(" + u + "\\)") + "</span>";
      && HitsAt(t, TexInlines, |InlineOpen|) && TexInlines(t, |InlineOpen|).value.len == |"\\(" + u + "\\)"|
      && TexInlines(t, |InlineOpen|).value.out == InlineSpan(u)
  {
    var t := InlineOpen + ("\\(" + u + "\\)") + "</span>";
    EnclosedAt(InlineOpen, u, "</span>", "\\(", "\\)");
    assert InlineOpen + "\\(" + u + "\\)" + "</span>" == t;
  }

  lemma BlockMarkup(c: char)
    requires c == '$' || c == '\\' || c == '('
    ensures c !in BlockOpen && c !in "</div>"
  {
  }

  lemma InlineMarkup(c: char)
    requires c == '[' || c == '\\'
    ensures c !in InlineOpen && c !in "</span>"
  {
  }
}
