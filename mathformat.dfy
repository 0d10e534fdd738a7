/**
 * `formatContent` of the math service (src/services/mathService.ts): the
 * chain of replacements that turns a tutor answer into HTML. Math goes to
 * the renderer, chemistry, notes, tables and code become blocks, then the
 * markdown-like emphasis and the paragraph breaks are applied, each pass a
 * rule for the scanner of module `Scan`.
 */
module MathFormat {
  import opened Wrappers
  import opened Text
  import opened Scan
  import opened Patterns
  import TexRules
  import MathService
  import MathBlocks
  import Markdown

  // ---------------------------------------------------------------------
  // Math, chemistry, notes, tables and code

  /** `\[MATH\]([\s\S]*?)\[\/MATH\]`, rendered as display math. */
  function MathBlockRule(katex: MathService.Renderer): Rule {
    (s: string, i: nat) => Enclosed(s, i, "[MATH]", "[/MATH]", b => MathService.RenderMath(katex, Trim(b), true))
  }

  /** `\$(.*?)\$`: a bare amount between the dollars is kept as it is,
      anything else is rendered as inline math. */
  function DollarAt(katex: MathService.Renderer, s: string, i: nat): Option<Hit> {
    match BodyEnd(s, i, "$", "$", false)
    case Some(k) =>
      if TexRules.IsAmount(s[i + 1..k]) then Some(Hit(k + 1 - i, s[i..k + 1]))
      else Some(Hit(k + 1 - i, MathService.RenderMath(katex, Trim(s[i + 1..k]), false)))
    case None => None
  }

  function DollarRule(katex: MathService.Renderer): Rule {
    (s: string, i: nat) => DollarAt(katex, s, i)
  }

  /** `\\\[([\s\S]*?)\\\]`, rendered as display math. */
  function TexBlockRule(katex: MathService.Renderer): Rule {
    (s: string, i: nat) => Enclosed(s, i, "\\[", "\\]", b => MathService.RenderMath(katex, Trim(b), true))
  }

  /** `\\\(([\s\S]*?)\\\)`, rendered as inline math. */
  function TexInlineRule(katex: MathService.Renderer): Rule {
    (s: string, i: nat) => Enclosed(s, i, "\\(", "\\)", b => MathService.RenderMath(katex, Trim(b), false))
  }

  /** `\[CHEM\]([\s\S]*?)\[\/CHEM\]` */
  function ChemAt(s: string, i: nat): Option<Hit> {
    Enclosed(s, i, "[CHEM]", "[/CHEM]", b => MathBlocks.ChemicalEquation(Trim(b)))
  }

  const NoteNames: seq<string> := ["important", "tip", "example", "warning", "steps", "definition"]

  function NoteTypeOf(name: string): MathBlocks.NoteType {
    if name == "important" then MathBlocks.ImportantNote
    else if name == "tip" then MathBlocks.TipNote
    else if name == "example" then MathBlocks.ExampleNote
    else if name == "warning" then MathBlocks.WarningNote
    else if name == "steps" then MathBlocks.StepsNote
    else MathBlocks.DefinitionNote
  }

  /** `:::(important|tip|example|warning|steps|definition)([\s\S]*?):::`:
      the note of the named type around the trimmed body. */
  function NoteAt(s: string, i: nat): Option<Hit> { Noted(s, i, NoteOut) }

  function NoteOut(name: string, body: string): string {
    MathBlocks.NoteBlock(NoteTypeOf(name), Trim(body), None)
  }

  /** `:::(important|tip|example|warning|steps|definition)([\s\S]*?):::`,
      the match written as `f` of the name and the body. No name is a prefix
      of another, so at most one alternative occurs; the body runs to the
      first `:::` after the name. */
  function Noted(s: string, i: nat, f: (string, string) -> string): (h: Option<Hit>)
    ensures h.Some? ==> At(s, i, ":::") && FirstNameAt(s, i + 3, NoteNames).Some?
    ensures h.Some? && At(s, i, ":::") && FirstNameAt(s, i + 3, NoteNames).Some? ==>
      var n := FirstNameAt(s, i + 3, NoteNames).value;
      var k := i + h.value.len - 3;
      && i + 3 + |n| <= k && At(s, k, ":::")
      && (forall m | i + 3 + |n| <= m < k :: !At(s, m, ":::"))
      && h.value.out == f(n, s[i + 3 + |n|..k])
  {
    if At(s, i, ":::") then
      match FirstNameAt(s, i + 3, NoteNames)
      case Some(n) =>
        (match LazyUntil(s, i + 3 + |n|, ":::", true)
         case Some(k) => Some(Hit(k + 3 - i, f(n, s[i + 3 + |n|..k])))
         case None => None)
      case None => None
    else None
  }

  /** `[^\n]*` from `j`: where the run of characters other than a line feed ends. */
  function FeedEnd(s: string, j: nat): (e: nat)
    requires j <= |s|
    ensures j <= e <= |s|
    ensures forall k | j <= k < e :: s[k] != '\n'
    ensures e == |s| || s[e] == '\n'
    decreases |s| - j
  {
    if j == |s| || s[j] == '\n' then j else FeedEnd(s, j + 1)
  }

  /** `Key Point:([^\n]+)`: the rest of the line, which must not be empty,
      becomes an important note titled "Key Point". */
  function KeyPointAt(s: string, i: nat): Option<Hit> { KeyPointed(s, i, KeyPointNote) }

  /** `Key Point:([^\n]+)`, the match written as `f` of the rest of the line:
      a match starts at the label exactly when a character other than a line
      feed follows it, and runs to the end of the line. */
  function KeyPointed(s: string, i: nat, f: string -> string): (h: Option<Hit>)
    ensures h.Some? <==> At(s, i, "Key Point:") && i + 10 < |s| && s[i + 10] != '\n'
    ensures h.Some? ==>
      var e := i + h.value.len;
      && i + 10 < e <= |s| && (e == |s| || s[e] == '\n')
      && (forall k | i + 10 <= k < e :: s[k] != '\n')
      && h.value.out == f(s[i + 10..e])
  {
    if At(s, i, "Key Point:") then
      var e := FeedEnd(s, i + 10);
      if e > i + 10 then Some(Hit(e - i, f(s[i + 10..e]))) else None
    else None
  }

  /** A key point's text becomes an important note titled "Key Point". */
  function KeyPointNote(point: string): string {
    MathBlocks.NoteBlock(MathBlocks.ImportantNote, Trim(point), Some("Key Point"))
  }

  /** `\[TABLE\]([\s\S]*?)\[\/TABLE\]` */
  function TableAt(s: string, i: nat): Option<Hit> {
    Enclosed(s, i, "[TABLE]", "[/TABLE]", b => MathBlocks.TableHtml(Trim(b)))
  }

  /** ```` ```([a-z]*)\n([\s\S]*?)``` ```` */
  function CodeAt(s: string, i: nat): Option<Hit> { Fenced(s, i, CodeHtml) }

  /** A code block: the language as a class, the trimmed code inside `pre`. */
  function CodeHtml(language: string, code: string): string {
    "<pre class=\"code-block " + language + "\">" + Trim(code) + "</pre>"
  }

  /** ```` ```([a-z]*)\n([\s\S]*?)``` ````, the match written as `f` of the
      language and the code. The language is the whole run of lower case
      letters after the fence and must be followed by a line feed; the code
      runs to the first fence after it. */
  function Fenced(s: string, i: nat, f: (string, string) -> string): (h: Option<Hit>)
    ensures h.Some? ==> At(s, i, "```") && 6 <= h.value.len
    ensures h.Some? && At(s, i, "```") && 6 <= h.value.len ==>
      var l := RunEnd(s, i + 3, IsLower);
      var k := i + h.value.len - 3;
      && l < k && At(s, k, "```") && s[l] == '\n'
      && (forall m | l + 1 <= m < k :: !At(s, m, "```"))
      && h.value.out == f(s[i + 3..l], s[l + 1..k])
  {
    if At(s, i, "```") then
      var l := RunEnd(s, i + 3, IsLower);
      if l < |s| && s[l] == '\n' then
        match LazyUntil(s, l + 1, "```", true)
        case Some(k) => Some(Hit(k + 3 - i, f(s[i + 3..l], s[l + 1..k])))
        case None => None
      else None
    else None
  }

  const Chems: Rule := ChemAt
  const Notes: Rule := NoteAt
  const KeyPoints: Rule := KeyPointAt
  const Tables: Rule := TableAt
  const Codes: Rule := CodeAt

  // ---------------------------------------------------------------------
  // Headers, emphasis, scripts and paragraphs

  const H3Open: string := "<h3 class=\"text-lg " + "font-semibold text-gray-900 " + "dark:text-white my-3\">"
  const H2Open: string := "<h2 class=\"text-xl " + "font-semibold text-gray-900 " + "dark:text-white my-4\">"
  const H1Open: string := "<h1 class=\"text-2xl " + "font-bold text-gray-900 " + "dark:text-white my-5\">"

  /** `marker (.*?)$` with the `m` flag: the marker anywhere (it is not
      anchored), then the rest of its line. */
  function HeaderAt(s: string, i: nat, marker: string, open: string, close: string): (h: Option<Hit>)
    ensures h.Some? <==> At(s, i, marker)
    ensures h.Some? ==>
      var e := i + h.value.len;
      && i + |marker| <= e <= |s|
      && NoLineTerminator(s[i + |marker|..e]) && (e == |s| || IsLineTerminator(s[e]))
      && h.value.out == open + s[i + |marker|..e] + close
  {
    if At(s, i, marker) then
      var e := LineEnd(s, i + |marker|);
      Some(Hit(e - i, open + s[i + |marker|..e] + close))
    else None
  }

  const H3s: Rule := (s: string, i: nat) => HeaderAt(s, i, "### ", H3Open, "</h3>")
  const H2s: Rule := (s: string, i: nat) => HeaderAt(s, i, "## ", H2Open, "</h2>")
  const H1s: Rule := (s: string, i: nat) => HeaderAt(s, i, "# ", H1Open, "</h1>")

  function Headers(s: string): string {
    ReplaceAll(ReplaceAll(ReplaceAll(s, H3s), H2s), H1s)
  }

  const Bolds: Rule := Markdown.Bold
  const Italics: Rule := Markdown.Italic

  /** `==(.*?)==`, `\^\^(.*?)\^\^`, `!!(.*?)!!`, `@(.*?)@`, `\+\+(.*?)\+\+` */
  function Marked(s: string, i: nat, delim: string, color: string): Option<Hit>
    requires |delim| > 0
  {
    Markdown.Delimited(s, i, delim, delim, "<mark class=\"highlight " + color + "\">", "</mark>")
  }

  const Yellows: Rule := (s: string, i: nat) => Marked(s, i, "==", "yellow")
  const Blues: Rule := (s: string, i: nat) => Marked(s, i, "^^", "blue")
  const Reds: Rule := (s: string, i: nat) => Marked(s, i, "!!", "red")
  const Greens: Rule := (s: string, i: nat) => Marked(s, i, "@", "green")
  const Purples: Rule := (s: string, i: nat) => Marked(s, i, "++", "purple")

  const UnderlineOpen: string := "<span class=\"border-b-2 " + "border-blue-400 dark:border-blue-500\">"

  const Underlines: Rule := (s: string, i: nat) => Markdown.Delimited(s, i, "__", "__", UnderlineOpen, "</span>")
  const Strikes: Rule := (s: string, i: nat) => Markdown.Delimited(s, i, "~~", "~~", "<span class=\"line-through\">", "</span>")

  /** `m([^\s m]+)m`: a non-empty run without white space or `m`, closed by `m`. */
  function ScriptAt(s: string, i: nat, m: char, tag: string): (h: Option<Hit>)
    ensures h.Some? ==>
      var e := i + h.value.len - 1;
      && i + 1 < e < |s| && s[i] == m && s[e] == m
      && (forall k | i < k < e :: !IsSpace(s[k]) && s[k] != m)
      && h.value.out == "<" + tag + ">" + s[i + 1..e] + "</" + tag + ">"
  {
    if i < |s| && s[i] == m then
      var e := RunEnd(s, i + 1, c => !IsSpace(c) && c != m);
      if e > i + 1 && e < |s| && s[e] == m then Some(Hit(e + 1 - i, "<" + tag + ">" + s[i + 1..e] + "</" + tag + ">"))
      else None
    else None
  }

  const Sups: Rule := (s: string, i: nat) => ScriptAt(s, i, '^', "sup")
  const Subs: Rule := (s: string, i: nat) => ScriptAt(s, i, '~', "sub")

  predicate IsBreakChar(c: char) { c == '\r' || c == '\n' }

  /** `(?:\r\n|\r|\n){2,}`: every alternative eats one break character or a
      `\r\n` pair, so the match is the whole run of `\r` and `\n` from `i`
      whenever it could be cut into two pieces, i.e. has at least two
      characters; a lone `\r\n` counts. */
  function BreakRunAt(s: string, i: nat): (h: Option<Hit>)
    ensures h.Some? <==> i <= |s| && RunEnd(s, i, IsBreakChar) >= i + 2
    ensures h.Some? ==> h.value == Hit(RunEnd(s, i, IsBreakChar) - i, "</p><p>")
  {
    if i <= |s| && RunEnd(s, i, IsBreakChar) >= i + 2 then Some(Hit(RunEnd(s, i, IsBreakChar) - i, "</p><p>"))
    else None
  }

  const BreakRuns: Rule := BreakRunAt

  /** The other formatting, in order: headers, bold, italic, the five
      highlights, underline, strike-through, superscript, subscript. */
  function Emphasis(s: string): string {
    var t := ReplaceAll(ReplaceAll(Headers(s), Bolds), Italics);
    var u := ReplaceAll(ReplaceAll(ReplaceAll(ReplaceAll(ReplaceAll(t, Yellows), Blues), Reds), Greens), Purples);
    ReplaceAll(ReplaceAll(ReplaceAll(ReplaceAll(u, Underlines), Strikes), Sups), Subs)
  }

  /** The blocks, in order: `[MATH]`, dollars, `\[`, `\(`, `[CHEM]`, notes,
      key points, `[TABLE]`, code. */
  function Blocks(katex: MathService.Renderer, s: string): string {
    var m := ReplaceAll(ReplaceAll(ReplaceAll(ReplaceAll(s, MathBlockRule(katex)), DollarRule(katex)), TexBlockRule(katex)), TexInlineRule(katex));
    ReplaceAll(ReplaceAll(ReplaceAll(ReplaceAll(ReplaceAll(m, Chems), Notes), KeyPoints), Tables), Codes)
  }

  /** The closing steps: `<p>` in front unless the text starts with `<`, then
      `</p>` behind unless it ends with `>`. The text itself is kept whole,
      and markup that is already tagged at both ends is left alone. */
  function Enclose(c: string): (r: string)
    ensures r != [] && r[0] == '<' && r[|r| - 1] == '>'
    ensures At(r, if StartsWith(c, "<") then 0 else 3, c)
    ensures StartsWith(c, "<") && EndsWith(c, ">") ==> r == c
  {
    var a := if StartsWith(c, "<") then c else "<p>" + c;
    assert a[0] == '<';
    assert At(a, if StartsWith(c, "<") then 0 else 3, c);
    var r := if EndsWith(a, ">") then a else a + "</p>";
    assert r[..|a|] == a;
    r
  }

  /** `formatContent`: empty content gives the empty string; anything else
      comes out as markup that opens with `<` and closes with `>`. */
  function FormatContent(katex: MathService.Renderer, content: string): (r: string)
    ensures content == [] ==> r == []
    ensures content != [] ==> r != [] && r[0] == '<' && r[|r| - 1] == '>'
  {
    if content == [] then []
    else Enclose(ReplaceAll(Emphasis(Blocks(katex, content)), BreakRuns))
  }

  // ---------------------------------------------------------------------
  // Properties

  /** Between two dollars, a bare amount such as `$5$` or `$1,000$` is kept
      with its dollars; anything else is rendered as inline math. */
  lemma DollarsDecide(katex: MathService.Renderer, b: string)
    requires '$' !in b && NoLineTerminator(b)
    ensures TexRules.IsAmount(b) ==> ReplaceAll("$" + b + "$", DollarRule(katex)) == "$" + b + "$"
    ensures !TexRules.IsAmount(b) ==>
      ReplaceAll("$" + b + "$", DollarRule(katex)) == MathService.RenderMath(katex, Trim(b), false)
  {
    var s := "$" + b + "$";
    forall m | 1 <= m < |b| + 1 ensures !At(s, m, "$") {
      AtHead(s, m, "$", 0);
      assert s[m] == b[m - 1];
    }
    LazyUntilFinds(s, 1, "$", false, |b| + 1);
    assert s[1..|b| + 1] == b;
    assert s[0..|b| + 2] == s;
    ReplaceWhole(s, DollarRule(katex));
  }

  /** `**b**` becomes bold text, and the italic pass that follows finds no
      `*` left to work on. */
  lemma BoldBeforeItalic(b: string)
    requires '*' !in b && NoLineTerminator(b)
    ensures ReplaceAll(ReplaceAll("**" + b + "**", Bolds), Italics) == Markdown.StrongOpen + b + "</strong>"
  {
    var s := "**" + b + "**";
    BoldHit(b);
    ReplaceWhole(s, Bolds);
    var t := Markdown.StrongOpen + b + "</strong>";
    StrongHasNoStar();
    assert '*' !in t;
    NoOpenerNoHit(t, Italics, "*", 0);
  }

  /** `**b**` is one match of the bold pass, with body `b`. */
  lemma BoldHit(b: string)
    requires '*' !in b && NoLineTerminator(b)
    ensures var s := "**" + b + "**";
      && HitsAt(s, Bolds, 0) && Bolds(s, 0).value.len == |s|
      && Bolds(s, 0).value.out == Markdown.StrongOpen + b + "</strong>"
  {
    var s := "**" + b + "**";
    forall m | 2 <= m < |b| + 2 ensures !At(s, m, "**") && !IsLineTerminator(s[m]) {
      AtHead(s, m, "**", 0);
      assert s[m] == b[m - 2];
    }
    assert s[|b| + 2..|b| + 4] == "**";
    LazyUntilFinds(s, 2, "**", false, |b| + 2);
    assert s[2..|b| + 2] == b;
    assert At(s, 0, "**");
  }

  lemma StrongHasNoStar()
    ensures '*' !in Markdown.StrongOpen && '*' !in "</strong>"
  {
    var a, c := "<strong class=\"font-semibold ", "text-gray-900 dark:text-white\">";
    assert '*' !in a;
    assert '*' !in c;
    assert Markdown.StrongOpen == a + c;
  }

  /** A third-level header becomes an `h3` and nothing else: the `##` and
      `#` passes that follow find no `#` left. */
  lemma ThirdLevelHeader(t: string)
    requires '#' !in t && NoLineTerminator(t)
    ensures Headers("### " + t) == H3Open + t + "</h3>"
  {
    var s := "### " + t;
    assert s[4..|s|] == t;
    assert LineEnd(s, 4) == |s|;
    var h := H3Open + t + "</h3>";
    assert H3s(s, 0) == Some(Hit(|s|, h));
    ReplaceWhole(s, H3s);
    HeaderMarkupHasNoHash();
    assert '#' !in h;
    NoOpenerNoHit(h, H2s, "## ", 0);
    NoOpenerNoHit(h, H1s, "# ", 0);
  }

  lemma HeaderMarkupHasNoHash()
    ensures '#' !in H3Open && '#' !in "</h3>"
  {
    var a, b, c := "<h3 class=\"text-lg ", "font-semibold text-gray-900 ", "dark:text-white my-3\">";
    assert '#' !in a;
    assert '#' !in b;
    assert '#' !in c;
  }

  /** A lone `\r\n` already counts as two line breaks and becomes a
      paragraph break, while a lone `\n` stays. */
  lemma LoneCrLfBreaksParagraph()
    ensures ReplaceAll("\r\n", BreakRuns) == "</p><p>"
    ensures ReplaceAll("\n", BreakRuns) == "\n"
  {
    assert RunEnd("\r\n", 0, IsBreakChar) == 2;
    ReplaceWhole("\r\n", BreakRuns);
    assert RunEnd("\n", 0, IsBreakChar) == 1;
    ReplaceWithoutHits("\n", BreakRuns, 0);
  }

  /** A note of any of the six types becomes its card: the type's icon and
      title around the trimmed body. */
  lemma NoteKindBecomesCard(t: MathBlocks.NoteType, b: string)
    requires ':' !in b
    ensures ReplaceAll(":::" + MathBlocks.NoteName(t) + b + ":::", Notes)
            == MathBlocks.NoteCard(t, MathBlocks.NoteTitle(t), Trim(b))
  {
    var s := ":::" + MathBlocks.NoteName(t) + b + ":::";
    NoteWhole(t, b, NoteOut);
    ReplaceWhole(s, Notes);
    NoteOutOfName(t, b);
  }

  lemma NoteOutOfName(t: MathBlocks.NoteType, b: string)
    ensures NoteOut(MathBlocks.NoteName(t), b) == MathBlocks.NoteCard(t, MathBlocks.NoteTitle(t), Trim(b))
  {
    assert NoteTypeOf(MathBlocks.NoteName(t)) == t;
  }

  /** The whole of `:::name b:::` is one match, whatever writes it. */
  lemma NoteWhole(t: MathBlocks.NoteType, b: string, f: (string, string) -> string)
    requires ':' !in b
    ensures var s := ":::" + MathBlocks.NoteName(t) + b + ":::";
      && Noted(s, 0, f).Some? && Noted(s, 0, f).value.len == |s|
      && Noted(s, 0, f).value.out == f(MathBlocks.NoteName(t), b)
  {
    var n := MathBlocks.NoteName(t);
    var s := ":::" + n + b + ":::";
    var j := 3 + |n|;
    assert s[..3] == ":::";
    assert s[3..j] == n;
    NoteNameFirst(s, t);
    forall m | j <= m < j + |b| ensures !At(s, m, ":::") {
      AtHead(s, m, ":::", 0);
      assert s[m] == b[m - j];
    }
    assert s[j + |b|..] == ":::";
    LazyUntilFinds(s, j, ":::", true, j + |b|);
    assert s[j..j + |b|] == b;
  }

  /** The six names start with six different letters, so the name of `t`
      is the one found where it occurs. */
  lemma NoteNameFirst(s: string, t: MathBlocks.NoteType)
    requires At(s, 3, MathBlocks.NoteName(t))
    ensures FirstNameAt(s, 3, NoteNames) == Some(MathBlocks.NoteName(t))
  {
    var n := MathBlocks.NoteName(t);
    AtHead(s, 3, n, 0);
    match FirstNameAt(s, 3, NoteNames)
    case Some(m) =>
      AtHead(s, 3, m, 0);
    case None =>
  }

  /** `Key Point: t` on a line of its own becomes an important note titled
      "Key Point" around the trimmed text. */
  lemma KeyPointBecomesNote(t: string)
    requires t != [] && '\n' !in t
    ensures ReplaceAll("Key Point:" + t, KeyPoints)
            == MathBlocks.NoteCard(MathBlocks.ImportantNote, "Key Point", Trim(t))
  {
    var s := "Key Point:" + t;
    KeyPointWhole(t, KeyPointNote);
    ReplaceWhole(s, KeyPoints);
  }

  lemma KeyPointWhole(t: string, f: string -> string)
    requires t != [] && '\n' !in t
    ensures var s := "Key Point:" + t;
      && KeyPointed(s, 0, f).Some? && KeyPointed(s, 0, f).value.len == |s|
      && KeyPointed(s, 0, f).value.out == f(t)
  {
    var s := "Key Point:" + t;
    assert s[..10] == "Key Point:";
    assert forall k | 10 <= k < |s| :: s[k] == t[k - 10] && t[k - 10] in t;
    assert s[10..|s|] == t;
  }

  /** A code block with a lower case language and no backquote in its code
      becomes a `pre` of that language around the trimmed code. */
  lemma CodeBlockBecomesPre(language: string, code: string)
    requires forall k | 0 <= k < |language| :: IsLower(language[k])
    requires '`' !in code
    ensures ReplaceAll("```" + language + "\n" + code + "```", Codes) == CodeHtml(language, code)
  {
    CodeWhole(language, code, CodeHtml);
    ReplaceWhole("```" + language + "\n" + code + "```", Codes);
  }

  lemma CodeWhole(language: string, code: string, f: (string, string) -> string)
    requires forall k | 0 <= k < |language| :: IsLower(language[k])
    requires '`' !in code
    ensures var s := "```" + language + "\n" + code + "```";
      && Fenced(s, 0, f).Some? && Fenced(s, 0, f).value.len == |s|
      && Fenced(s, 0, f).value.out == f(language, code)
  {
    var s := "```" + language + "\n" + code + "```";
    var l := 3 + |language|;
    var j := l + 1;
    assert s[..3] == "```";
    assert s[l] == '\n';
    assert forall k | 3 <= k < l :: s[k] == language[k - 3];
    assert RunEnd(s, 3, IsLower) == l by {
      RunEndAt(s, 3, l, IsLower);
    }
    forall m | j <= m < j + |code| ensures !At(s, m, "```") {
      AtHead(s, m, "```", 0);
      assert s[m] == code[m - j];
    }
    assert s[j + |code|..] == "```";
    LazyUntilFinds(s, j, "```", true, j + |code|);
    assert s[3..l] == language;
    assert s[j..j + |code|] == code;
  }

  /** Where a run of `keep` characters stops before one that is not kept. */
  lemma {:induction false} RunEndAt(s: string, i: nat, e: nat, keep: char -> bool)
    requires i <= e < |s| && !keep(s[e])
    requires forall k | i <= k < e :: keep(s[k])
    ensures RunEnd(s, i, keep) == e
    decreases e - i
  {
    if i < e {
      RunEndAt(s, i + 1, e, keep);
    }
  }

  /** Conversely, a run without white space or `m` between two `m`s is a
      match of the script rule from the first to the second. */
  lemma ScriptMatches(s: string, i: nat, e: nat, m: char, tag: string)
    requires i + 1 < e < |s| && s[i] == m && s[e] == m
    requires forall k | i < k < e :: !IsSpace(s[k]) && s[k] != m
    ensures ScriptAt(s, i, m, tag) == Some(Hit(e + 1 - i, "<" + tag + ">" + s[i + 1..e] + "</" + tag + ">"))
  {
    RunEndAt(s, i + 1, e, c => !IsSpace(c) && c != m);
  }
}
