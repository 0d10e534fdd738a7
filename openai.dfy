/**
 * `formatContent` of the OpenAI client (src/services/openai.ts): math is
 * given MathML wrappers, leftover placeholders are looked up in a table of
 * common formulas, four kinds of note become cards, and a few markdown
 * forms become HTML.
 */
module OpenAi {
  import opened Wrappers
  import opened Text
  import opened Scan
  import opened Patterns
  import Markdown
  import MathBlocks
  import MathFormat

  // ---------------------------------------------------------------------
  // MathML wrappers

  const MathMLOpen: string := "<math " + "xmlns=\"http://" + "www.w3.org/1998/" + "Math/MathML\" "
  const BlockMathOpen: string := MathMLOpen + "display=\"block\">"
  const InlineMathOpen: string := MathMLOpen + "display=\"inline\">"

  /** `\[MATH\]([\s\S]*?)\[\/MATH\]`: a trimmed body without `xmlns=` is put
      inside a display `<math>` element within the same delimiters; a body
      that has it is left as it is. */
  function MathMLBlockAt(s: string, i: nat): Option<Hit> {
    match BodyEnd(s, i, "[MATH]", "[/MATH]", true)
    case Some(k) =>
      var t := Trim(s[i + 6..k]);
      if !Contains(t, "xmlns=") then Some(Hit(k + 7 - i, "[MATH]" + BlockMathOpen + t + "</math>[/MATH]"))
      else Some(Hit(k + 7 - i, s[i..k + 7]))
    case None => None
  }

  /** `\$(.*?)\$`: a trimmed body without `<math` becomes an inline
      `<math>` element with one `<mrow>`, still between dollars; a body that
      has it is left as it is. */
  function InlineMathAt(s: string, i: nat): Option<Hit> {
    match BodyEnd(s, i, "$", "$", false)
    case Some(k) =>
      var t := Trim(s[i + 1..k]);
      if !Contains(t, "<math") then Some(Hit(k + 1 - i, "$" + InlineMathOpen + "<mrow>" + t + "</mrow></math>$"))
      else Some(Hit(k + 1 - i, s[i..k + 1]))
    case None => None
  }

  const MathMLBlocks: Rule := MathMLBlockAt
  const InlineMaths: Rule := InlineMathAt

  // ---------------------------------------------------------------------
  // Placeholders

  /** The common formulas a placeholder's number is looked up in. */
  const CommonMath: seq<string> := [
    "x", "ax^2 + bx + c = 0", "a", "b", "c", "a ≠ 0", "ax^2 + bx + c = 0", "x",
    "(-b ± √(b^2 - 4ac))/(2a)", "x", "x^2 + 2x + 1 = 0"]

  /** Entry `n` of the table, `x` past its end. */
  function Expression(n: nat): string {
    if n < |CommonMath| then CommonMath[n] else "x"
  }

  /** A formula as an inline `<math>` element holding one identifier. */
  function PlaceholderMath(e: string): string {
    "$" + InlineMathOpen + "<mrow><mi>" + e + "</mi></mrow></math>$"
  }

  /** `MATH_PLACEHOLDER_(\d+)`, replaced by the formula its number names. */
  function PlaceholderAt(s: string, i: nat): Option<Hit> {
    if At(s, i, "MATH_PLACEHOLDER_") && i + 17 < |s| && IsDigit(s[i + 17]) then
      var e := DigitEnd(s, i + 17);
      Some(Hit(e - i, PlaceholderMath(Expression(DigitsValue(s[i + 17..e])))))
    else None
  }

  const Placeholders: Rule := PlaceholderAt

  // ---------------------------------------------------------------------
  // Notes

  /** The four kinds of note this formatter knows. */
  datatype Kind = Important | Tip | Example | Steps

  function KindName(k: Kind): string {
    match k
    case Important => "important"
    case Tip => "tip"
    case Example => "example"
    case Steps => "steps"
  }

  const KindNames: seq<string> := ["important", "tip", "example", "steps"]

  function KindOf(name: string): Kind {
    if name == "important" then Important
    else if name == "tip" then Tip
    else if name == "example" then Example
    else Steps
  }

  function KindIcon(k: Kind): string {
    match k
    case Important => "\U{1F511}"
    case Tip => "\U{1F4A1}"
    case Example => "\U{1F4DD}"
    case Steps => "\U{1F4CB}"
  }

  function KindColor(k: Kind): string {
    match k
    case Important => "bg-purple-50 dark:bg-purple-900/30"
    case Tip => "bg-blue-50 dark:bg-blue-900/30"
    case Example => "bg-green-50 dark:bg-green-900/30"
    case Steps => "bg-indigo-50 dark:bg-indigo-900/30"
  }

  function KindTitle(k: Kind): string {
    match k
    case Important => "Key Concept"
    case Tip => "Helpful Tip"
    case Example => "Example"
    case Steps => "Step-by-Step"
  }

  // Long markup literals are written as short pieces joined with `+`: facts
  // about single characters of them then stay cheap for the verifier.
  const CardOpen: string := "<" + "div class=\"my-4 p-4 rounded-lg "
  const CardClose: string := "\n      </div" + ">"

  /** The note card, as the template reads once its outer indentation is trimmed. */
  function NoteCard(k: Kind, text: string): string {
    CardOpen + CardInner(k, text) + CardClose
  }

  function CardInner(k: Kind, text: string): string {
    KindColor(k) + " overflow-hidden\">\n"
    + "        <div class=\"flex items-center gap-2 font-medium text-gray-800 dark:text-gray-200 mb-2\">\n"
    + "          <span class=\"text-xl\">" + KindIcon(k) + "</span>\n"
    + "          <span>" + KindTitle(k) + "</span>\n"
    + "        </div>\n"
    + "        <div class=\"text-gray-700 dark:text-gray-300 prose-content\">\n"
    + "          " + text + "\n"
    + "        </div>"
  }

  /** The template with its surrounding line breaks and indentation, trimmed. */
  function NoteTemplate(k: Kind, text: string): (r: string)
    ensures r == NoteCard(k, text)
  {
    TrimmedCard(k, text);
    Trim("\n      " + NoteCard(k, text) + "\n    ")
  }

  /** The card for a note of the named kind, its text trimmed. */
  function NoteOut(name: string, body: string): string {
    NoteTemplate(KindOf(name), Trim(body))
  }

  /** `:::(important|tip|example|steps)([\s\S]*?):::` */
  function NoteAt(s: string, i: nat): Option<Hit> {
    if At(s, i, ":::") then NoteNamed(s, i, FirstNameAt(s, i + 3, KindNames)) else None
  }

  /** The rest of a note once its opening colons and name are read. */
  function NoteNamed(s: string, i: nat, name: Option<string>): Option<Hit>
    requires name.Some? ==> i + 3 + |name.value| <= |s|
  {
    match name
    case Some(n) => NoteClosed(s, i, n, LazyUntil(s, i + 3 + |n|, ":::", true))
    case None => None
  }

  /** A note whose closing colons are at `close`, if they were found. */
  function NoteClosed(s: string, i: nat, n: string, close: Option<nat>): Option<Hit>
    requires close.Some? ==> i + 3 + |n| <= close.value <= |s|
  {
    match close
    case Some(k) => Some(Hit(k + 3 - i, NoteOut(n, s[i + 3 + |n|..k])))
    case None => None
  }

  const Notes: Rule := NoteAt

  // ---------------------------------------------------------------------
  // Markdown

  const Bolds: Rule := Markdown.Bold
  const Highlights: Rule := Markdown.Highlight

  /** `\^\^(.*?)\^\^` */
  const Underlines: Rule := (s: string, i: nat) => Markdown.Delimited(s, i, "^^", "^^", MathFormat.UnderlineOpen, "</span>")

  /** `formatContent`: MathML for `[MATH]` blocks and dollars, the
      placeholder table, notes, then third-level headers, bold, yellow
      highlights and underlines. */
  function FormatContent(content: string): string {
    var m := ReplaceAll(ReplaceAll(ReplaceAll(content, MathMLBlocks), InlineMaths), Placeholders);
    ReplaceAll(ReplaceAll(ReplaceAll(ReplaceAll(ReplaceAll(m, Notes), MathFormat.H3s), Bolds), Highlights), Underlines)
  }

  // ---------------------------------------------------------------------
  // Properties

  /** Text holding none of the characters the passes open with comes out
      as it went in. */
  lemma PlainTextUntouched(s: string)
    requires '[' !in s && '$' !in s && '_' !in s && ':' !in s
    requires '#' !in s && '*' !in s && '=' !in s && '^' !in s
    ensures FormatContent(s) == s
  {
    MathPassesOpen(s);
    NoOpenerNoHit(s, MathMLBlocks, "[MATH]", 0);
    NoOpenerNoHit(s, InlineMaths, "$", 0);
    NoOpenerNoHit(s, Placeholders, "MATH_PLACEHOLDER_", 4);
    MarkupPassesOpen(s);
    NoOpenerNoHit(s, Notes, ":::", 0);
    NoOpenerNoHit(s, MathFormat.H3s, "### ", 0);
    NoOpenerNoHit(s, Bolds, "**", 0);
    NoOpenerNoHit(s, Highlights, "==", 0);
    NoOpenerNoHit(s, Underlines, "^^", 0);
  }

  lemma MathPassesOpen(t: string)
    ensures forall j | 0 <= j < |t| && HitsAt(t, MathMLBlocks, j) :: At(t, j, "[MATH]")
    ensures forall j | 0 <= j < |t| && HitsAt(t, InlineMaths, j) :: At(t, j, "$")
    ensures forall j | 0 <= j < |t| && HitsAt(t, Placeholders, j) :: At(t, j, "MATH_PLACEHOLDER_")
  {
  }

  lemma MarkupPassesOpen(t: string)
    ensures forall j | 0 <= j < |t| && HitsAt(t, Notes, j) :: At(t, j, ":::")
    ensures forall j | 0 <= j < |t| && HitsAt(t, MathFormat.H3s, j) :: At(t, j, "### ")
    ensures forall j | 0 <= j < |t| && HitsAt(t, Bolds, j) :: At(t, j, "**")
    ensures forall j | 0 <= j < |t| && HitsAt(t, Highlights, j) :: At(t, j, "==")
    ensures forall j | 0 <= j < |t| && HitsAt(t, Underlines, j) :: At(t, j, "^^")
  {
  }

  /** A `[MATH]` block gets the MathML namespace exactly when its trimmed
      body lacks `xmlns=`; otherwise it is left as it is. */
  lemma MathBlockNamespace(b: string)
    requires '[' !in b
    ensures !Contains(Trim(b), "xmlns=") ==>
      ReplaceAll("[MATH]" + b + "[/MATH]", MathMLBlocks) == "[MATH]" + BlockMathOpen + Trim(b) + "</math>[/MATH]"
    ensures Contains(Trim(b), "xmlns=") ==>
      ReplaceAll("[MATH]" + b + "[/MATH]", MathMLBlocks) == "[MATH]" + b + "[/MATH]"
  {
    var s := "[MATH]" + b + "[/MATH]";
    EnclosedAt([], b, [], "[MATH]", "[/MATH]");
    assert [] + "[MATH]" + b + "[/MATH]" + [] == s;
    assert s[0..6 + |b| + 7] == s;
    ReplaceWhole(s, MathMLBlocks);
  }

  /** A `$…$` body gets an inline MathML element exactly when its trimmed
      text lacks `<math`; otherwise it is left as it is. */
  lemma InlineMathML(b: string)
    requires '$' !in b && NoLineTerminator(b)
    ensures !Contains(Trim(b), "<math") ==>
      ReplaceAll("$" + b + "$", InlineMaths) == "$" + InlineMathOpen + "<mrow>" + Trim(b) + "</mrow></math>$"
    ensures Contains(Trim(b), "<math") ==> ReplaceAll("$" + b + "$", InlineMaths) == "$" + b + "$"
  {
    var s := "$" + b + "$";
    forall m | 1 <= m < |b| + 1 ensures !At(s, m, "$") && !IsLineTerminator(s[m]) {
      AtHead(s, m, "$", 0);
      assert s[m] == b[m - 1];
    }
    LazyUntilFinds(s, 1, "$", false, |b| + 1);
    assert s[1..|b| + 1] == b;
    assert s[0..|b| + 2] == s;
    ReplaceWhole(s, InlineMaths);
  }

  /** `MATH_PLACEHOLDER_n` becomes entry `n` of the table as MathML, or `x`
      from 11 on. */
  lemma PlaceholderEntry(n: nat)
    ensures ReplaceAll("MATH_PLACEHOLDER_" + NatToString(n), Placeholders) ==
      PlaceholderMath(if n < 11 then CommonMath[n] else "x")
  {
    DigitsValueOfNatToString(n);
    PlaceholderDigits(NatToString(n));
  }

  /** A placeholder followed by its digits and nothing else is one match. */
  lemma PlaceholderDigits(d: string)
    requires d != [] && AllDigits(d)
    ensures ReplaceAll("MATH_PLACEHOLDER_" + d, Placeholders) == PlaceholderMath(Expression(DigitsValue(d)))
  {
    var s := "MATH_PLACEHOLDER_" + d;
    assert At(s, 0, "MATH_PLACEHOLDER_");
    assert s[17..] == d;
    forall k | 17 <= k < |s| ensures IsDigit(s[k]) {
      assert s[k] == d[k - 17];
    }
    DigitsToEnd(s, 17);
    assert s[17..|s|] == d;
    ReplaceWhole(s, Placeholders);
  }

  lemma {:induction false} DigitsToEnd(s: string, i: nat)
    requires i <= |s| && forall k | i <= k < |s| :: IsDigit(s[k])
    ensures DigitEnd(s, i) == |s|
    decreases |s| - i
  {
    if i < |s| {
      DigitsToEnd(s, i + 1);
    }
  }

  /** A note of one of the four kinds becomes its card, with the trimmed
      text inside. */
  lemma NoteBecomesCard(k: Kind, b: string)
    requires ':' !in b
    ensures ReplaceAll(":::" + KindName(k) + b + ":::", Notes) == NoteCard(k, Trim(b))
  {
    NoteHit(k, b);
    ReplaceWhole(":::" + KindName(k) + b + ":::", Notes);
  }

  lemma NoteHit(k: Kind, b: string)
    requires ':' !in b
    ensures var s := ":::" + KindName(k) + b + ":::";
      Notes(s, 0).Some? && Notes(s, 0).value.len == |s| && Notes(s, 0).value.out == NoteCard(k, Trim(b))
  {
    NoteMatched(k, b);
    NoteOfKind(k, b);
  }

  /** The note's match, with its output still in terms of the kind's name. */
  lemma NoteMatched(k: Kind, b: string)
    requires ':' !in b
    ensures var s := ":::" + KindName(k) + b + ":::";
      NoteAt(s, 0).Some? && NoteAt(s, 0).value.len == |s| && NoteAt(s, 0).value.out == NoteOut(KindName(k), b)
  {
    var n := KindName(k);
    var s := ":::" + n + b + ":::";
    var j := 3 + |n|;
    var e := j + |b|;
    assert At(s, 0, ":::") && FirstNameAt(s, 3, KindNames) == Some(n)
      && LazyUntil(s, j, ":::", true) == Some(e) && s[j..e] == b && e + 3 == |s| by {
      NoteEnd(k, b);
    }
    NoteFound(s, 0, n, e, b);
  }

  /** The card for the name of `k` is the card of kind `k`. */
  lemma NoteOfKind(k: Kind, b: string)
    ensures NoteOut(KindName(k), b) == NoteCard(k, Trim(b))
  {
    KindOfName(k);
  }

  /** The match of a note, field by field (whole-value equality of hits
      with long outputs is slow to prove). */
  lemma NoteFound(s: string, i: nat, n: string, e: nat, body: string)
    requires At(s, i, ":::") && FirstNameAt(s, i + 3, KindNames) == Some(n)
    requires LazyUntil(s, i + 3 + |n|, ":::", true) == Some(e)
    requires i + 3 + |n| <= e <= |s| && s[i + 3 + |n|..e] == body
    ensures NoteAt(s, i).Some? && NoteAt(s, i).value.len == e + 3 - i
    ensures NoteAt(s, i).value.out == NoteOut(n, body)
  {
    assert NoteAt(s, i) == NoteNamed(s, i, Some(n));
    NamedCloses(s, i, n);
    ClosedAt(s, i, n, e);
  }

  lemma NamedCloses(s: string, i: nat, n: string)
    requires i + 3 + |n| <= |s|
    ensures NoteNamed(s, i, Some(n)) == NoteClosed(s, i, n, LazyUntil(s, i + 3 + |n|, ":::", true))
  {
  }

  lemma ClosedAt(s: string, i: nat, n: string, e: nat)
    requires i + 3 + |n| <= e <= |s|
    ensures NoteClosed(s, i, n, Some(e)).Some?
    ensures NoteClosed(s, i, n, Some(e)).value.len == e + 3 - i
    ensures NoteClosed(s, i, n, Some(e)).value.out == NoteOut(n, s[i + 3 + |n|..e])
  {
  }

  lemma KindOfName(k: Kind)
    ensures KindOf(KindName(k)) == k
  {
  }

  /** The note's name is found after the opening colons, and its body runs
      up to the closing ones. */
  lemma NoteEnd(k: Kind, b: string)
    requires ':' !in b
    ensures var s := ":::" + KindName(k) + b + ":::"; var j := 3 + |KindName(k)|;
      && At(s, 0, ":::")
      && FirstNameAt(s, 3, KindNames) == Some(KindName(k))
      && LazyUntil(s, j, ":::", true) == Some(j + |b|)
      && s[j..j + |b|] == b && j + |b| + 3 == |s|
  {
    var n := KindName(k);
    var s := ":::" + n + b + ":::";
    var j := 3 + |n|;
    assert s[3..j] == n;
    KindNamed(s, k);
    forall m | j <= m < j + |b| ensures !At(s, m, ":::") {
      AtHead(s, m, ":::", 0);
      assert s[m] == b[m - j];
    }
    assert s[j + |b|..] == ":::";
    LazyUntilFinds(s, j, ":::", true, j + |b|);
    assert s[j..j + |b|] == b;
  }

  /** Only the name of `k` itself occurs where a note starts with it. */
  lemma KindNamed(s: string, k: Kind)
    requires At(s, 3, KindName(k))
    ensures FirstNameAt(s, 3, KindNames) == Some(KindName(k))
  {
    var n := KindName(k);
    AtHead(s, 3, n, 0);
    match FirstNameAt(s, 3, KindNames)
    case Some(m) =>
      AtHead(s, 3, m, 0);
    case None =>
  }

  /** A warning note is not one of the four kinds and is left as it is. */
  lemma WarningLeftAlone(b: string)
    requires ':' !in b
    ensures ReplaceAll(":::warning" + b + ":::", Notes) == ":::warning" + b + ":::"
  {
    var s := ":::warning" + b + ":::";
    assert s[..10] == ":::warning";
    forall j | 0 <= j < |s| ensures !HitsAt(s, Notes, j) {
      if j == 0 {
        WarningIsNoKind(s);
        NoKindNoNote(s, 0);
      } else if j < |s| - 3 {
        if j < 3 {
          AtHead(s, j, ":::", 3 - j);
        } else if j < 10 {
          AtHead(s, j, ":::", 0);
        } else {
          AtHead(s, j, ":::", 0);
          assert s[j] == b[j - 10];
        }
        NoOpenerNoNote(s, j);
      } else {
        NoNameAtEnd(s);
        NoKindNoNote(s, j);
      }
    }
    ReplaceWithoutHits(s, Notes, 0);
  }

  lemma NoOpenerNoNote(s: string, j: nat)
    requires !At(s, j, ":::")
    ensures !HitsAt(s, Notes, j)
  {
  }

  lemma NoKindNoNote(s: string, j: nat)
    requires j + 3 >= |s| || FirstNameAt(s, j + 3, KindNames) == None
    ensures !HitsAt(s, Notes, j)
  {
    if j + 3 >= |s| && j + 3 <= |s| {
      assert FirstNameAt(s, j + 3, KindNames) == None;
    }
  }

  lemma NoNameAtEnd(s: string)
    ensures FirstNameAt(s, |s|, KindNames) == None
  {
  }

  lemma WarningIsNoKind(s: string)
    requires At(s, 3, "warning")
    ensures FirstNameAt(s, 3, KindNames) == None
  {
    AtHead(s, 3, "warning", 0);
    forall m | m in KindNames ensures !At(s, 3, m) {
      AtHead(s, 3, m, 0);
    }
  }

  /** Trimming takes off exactly the line breaks and indentation around the card. */
  lemma TrimmedCard(k: Kind, text: string)
    ensures Trim("\n      " + NoteCard(k, text) + "\n    ") == NoteCard(k, text)
  {
    CardEnds(k, text);
    TemplateIndents();
    TrimFramed("\n      ", NoteCard(k, text), "\n    ");
  }

  lemma TemplateIndents()
    ensures AllSpace("\n      ") && AllSpace("\n    ")
  {
  }

  lemma CardEnds(k: Kind, text: string)
    ensures var card := NoteCard(k, text);
      card != [] && card[0] == '<' && card[|card| - 1] == '>'
  {
    Framed(CardInner(k, text));
  }

  lemma Framed(m: string)
    ensures var card := CardOpen + m + CardClose;
      card != [] && card[0] == '<' && card[|card| - 1] == '>'
  {
    CardPieces();
    MathBlocks.Ends(CardOpen, m, CardClose);
  }

  lemma CardPieces()
    ensures |CardOpen| > 0 && CardOpen[0] == '<'
    ensures |CardClose| > 0 && CardClose[|CardClose| - 1] == '>'
  {
  }
}
