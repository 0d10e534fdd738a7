/**
 * The block formatters of the math service (src/services/mathService.ts):
 * chemical equations, markdown-like tables and the titled note cards.
 */
module MathBlocks {
  import opened Wrappers
  import opened Text
  import opened Scan
  import opened Patterns

  // ---------------------------------------------------------------------
  // Chemical equations
  // ---------------------------------------------------------------------

  /** The single-character arrows `→ ⟶ ⇒ ⇌ ⇋ ⇄ ⇆` of the arrow pattern. */
  predicate IsArrowChar(c: char) {
    c == '\U{2192}' || c == '\U{27F6}' || c == '\U{21D2}' || c == '\U{21CC}'
    || c == '\U{21CB}' || c == '\U{21C4}' || c == '\U{21C6}'
  }

  /** An arrow character other than `→`, the one every arrow becomes. */
  predicate IsOtherArrow(c: char) { IsArrowChar(c) && c != '\U{2192}' }

  predicate NotOtherArrow(c: char) { !IsOtherArrow(c) }

  /** The two characters of an ASCII arrow `->`. */
  predicate DashGreater(a: char, b: char) { a == '-' && b == '>' }

  /** No ASCII arrow `->` (hence no `<->`) and no arrow character but `→`. */
  predicate ArrowFree(t: string) {
    PairFree(t, DashGreater) && forall c | c in t :: NotOtherArrow(c)
  }

  const Arrow: string := " \U{2192} "

  /** `<?->|→|⟶|⇒|⇌|⇋|⇄|⇆`: `<->` is tried before `->`; any match becomes `Arrow`. */
  function ArrowAt(s: string, i: nat): Option<Hit> {
    if At(s, i, "<->") then Some(Hit(3, Arrow))
    else if At(s, i, "->") then Some(Hit(2, Arrow))
    else if i < |s| && IsArrowChar(s[i]) then Some(Hit(1, Arrow))
    else None
  }

  /** `([A-Za-z])(\d+)` becomes `$1<sub>$2</sub>`; the digit run is greedy. */
  function SubscriptAt(s: string, i: nat): Option<Hit> {
    if i + 1 < |s| && IsLetter(s[i]) && IsDigit(s[i + 1]) then
      var e := DigitEnd(s, i + 1);
      Some(Hit(e - i, s[i..i + 1] + ("<sub>" + s[i + 1..e] + "</sub>")))
    else None
  }

  /** `([A-Za-z\)])(\d*[\+\-])` becomes `$1<sup>$2</sup>`: a letter or `)`,
      then digits and a sign. Giving digits back cannot produce a sign, so
      the greedy run is the only way to match. */
  function ChargeAt(s: string, i: nat): Option<Hit> {
    if i < |s| && (IsLetter(s[i]) || s[i] == ')') then
      var d := DigitEnd(s, i + 1);
      if d < |s| && (s[d] == '+' || s[d] == '-') then
        Some(Hit(d + 1 - i, s[i..i + 1] + ("<sup>" + s[i + 1..d + 1] + "</sup>")))
      else None
    else None
  }

  const StateNames: seq<string> := ["g", "l", "s", "aq"]

  /** `\((g|l|s|aq)\)` becomes `<sub>($1)</sub>`. The alternatives start with
      different letters, so at most one of them can occur after the `(`. */
  function StateAt(s: string, i: nat): Option<Hit> {
    if At(s, i, "(") then
      match FirstNameAt(s, i + 1, StateNames)
      case Some(n) =>
        if At(s, i + 1 + |n|, ")") then Some(Hit(|n| + 2, "<sub>" + s[i..i + |n| + 2] + "</sub>"))
        else None
      case None => None
    else None
  }

  /** Where `(Δ|heat|catalyst|cat\.|[\d]+°C)` under the `i` flag ends when it
      matches at `i`, alternatives tried in order. */
  function HeatEnd(s: string, i: nat): (e: Option<nat>)
    ensures e.Some? ==> i < e.value <= |s|
  {
    if AtFolded(s, i, "\U{0394}") then Some(i + 1)
    else if AtFolded(s, i, "heat") then Some(i + 4)
    else if AtFolded(s, i, "catalyst") then Some(i + 8)
    else if AtFolded(s, i, "cat.") then Some(i + 4)
    else if i < |s| && IsDigit(s[i]) then
      var d := DigitEnd(s, i);
      if d + 1 < |s| && s[d] == '\U{00B0}' && Canon(s[d + 1]) == 'C' then Some(d + 2) else None
    else None
  }

  const HeatOpen: string := "<span class=\"" + "text-red-600 " + "dark:text-red-400\">"

  function HeatAt(s: string, i: nat): Option<Hit> {
    match HeatEnd(s, i)
    case Some(e) => Some(Hit(e - i, HeatOpen + s[i..e] + "</span>"))
    case None => None
  }

  const Arrows: Rule := ArrowAt
  const Subscripts: Rule := SubscriptAt
  const Charges: Rule := ChargeAt
  const States: Rule := StateAt
  const Heats: Rule := HeatAt

  const ChemOpen: string := "<div class=\"chemical-equation\">"

  /** `formatChemicalEquation`: the five passes in order, then the wrapper.
      Each pass copies the text outside its matches: every arrow becomes
      ` → `, a letter's digits a subscript, a charge a superscript, a state
      `(g)`, `(l)`, `(s)` or `(aq)` a subscript, and a heat indicator a red
      span. Whatever the input, the wrapped equation holds no ASCII arrow
      and no arrow character but `→`. */
  function ChemicalEquation(equation: string): (r: string)
    ensures StartsWith(r, ChemOpen) && EndsWith(r, "</div>")
    ensures |ChemOpen| + 6 <= |r| && ArrowFree(r[|ChemOpen|..|r| - 6])
    ensures
      var a := ReplaceAll(equation, Arrows);
      var b := ReplaceAll(a, Subscripts);
      var c := ReplaceAll(b, Charges);
      var d := ReplaceAll(c, States);
      var e := r[|ChemOpen|..|r| - 6];
      && Spells(equation, Arrows, a, ArrowMark)
      && Spells(a, Subscripts, b, SubscriptMark)
      && Spells(b, Charges, c, ChargeMark)
      && Spells(c, States, d, StateMark)
      && Spells(d, Heats, e, HeatMark)
  {
    var a := ReplaceAll(equation, Arrows);
    ArrowPassCleans(equation);
    ArrowsSpelled(equation);
    var b := ReplaceAll(a, Subscripts);
    SubscriptsKeepArrowFree(a);
    SubscriptsSpelled(a);
    var c := ReplaceAll(b, Charges);
    ChargesKeepArrowFree(b);
    ChargesSpelled(b);
    var d := ReplaceAll(c, States);
    StatesKeepArrowFree(c);
    StatesSpelled(c);
    var e := ReplaceAll(d, Heats);
    HeatsKeepArrowFree(d);
    HeatsSpelled(d);
    var r := ChemOpen + e + "</div>";
    assert r[|ChemOpen|..|r| - 6] == e;
    r
  }

  // The arrow-free facts about the literal markup come one literal per
  // lemma: stated together they are slow to prove.

  lemma TagsArrowFree()
    ensures ArrowFree("<sub>") && ArrowFree("</sub>") && ArrowFree("<sup>") && ArrowFree("</sup>")
  {
  }

  lemma ArrowArrowFree()
    ensures ArrowFree(Arrow) && Arrow[|Arrow| - 1] == ' '
  {
  }

  lemma HeatTagsArrowFree()
    ensures ArrowFree(HeatOpen) && ArrowFree("</span>")
  {
    var a, b, c := "<span class=\"", "text-red-600 ", "dark:text-red-400\">";
    HeatOpenPieces(a, b, c);
    AppendArrowFree(a, b);
    AppendArrowFree(a + b, c);
    assert HeatOpen == a + b + c;
  }

  lemma HeatOpenPieces(a: string, b: string, c: string)
    requires a == "<span class=\"" && b == "text-red-600 " && c == "dark:text-red-400\">"
    ensures ArrowFree(a) && ArrowFree(b) && ArrowFree(c) && ArrowFree("</span>")
  {
    SpanArrowFree(a);
    ClassArrowFree(b);
    DarkClassArrowFree(c);
  }

  lemma SpanArrowFree(a: string)
    requires a == "<span class=\""
    ensures ArrowFree(a) && ArrowFree("</span>")
  {
  }

  lemma ClassArrowFree(b: string)
    requires b == "text-red-600 "
    ensures ArrowFree(b)
  {
  }

  lemma DarkClassArrowFree(c: string)
    requires c == "dark:text-red-400\">"
    ensures ArrowFree(c)
  {
  }

  lemma AppendArrowFree(a: string, b: string)
    requires ArrowFree(a) && ArrowFree(b)
    requires a != [] && b != [] ==> !DashGreater(a[|a| - 1], b[0])
    ensures ArrowFree(a + b)
  {
    PairFreeAppend(a, b, DashGreater);
  }

  lemma SliceArrowFree(s: string, a: nat, b: nat)
    requires a <= b <= |s| && ArrowFree(s)
    ensures ArrowFree(s[a..b])
  {
    PairFreeSlice(s, a, b, DashGreater);
    assert forall c | c in s[a..b] :: c in s;
  }

  /** A piece of the input between two tags that hold no arrow stays arrow free. */
  lemma WrapArrowFree(s: string, a: nat, b: nat, open: string, close: string)
    requires a <= b <= |s| && ArrowFree(s)
    requires ArrowFree(open) && ArrowFree(close) && open != [] && close != []
    requires open[|open| - 1] == '>' && close[0] == '<'
    ensures ArrowFree(open + s[a..b] + close)
  {
    SliceArrowFree(s, a, b);
    AppendArrowFree(open, s[a..b]);
    AppendArrowFree(open + s[a..b], close);
  }

  /** The replacement at `j` keeps the output arrow free, whatever is next to it. */
  predicate FitsArrowFree(s: string, r: Rule, j: nat) {
    HitsAt(s, r, j) ==>
      var o := r(s, j).value.out;
      o != [] && ArrowFree(o) && (o[0] == s[j] || o[0] != '>') && o[|o| - 1] != '-'
  }

  lemma PassKeepsArrowFree(s: string, r: Rule)
    requires ArrowFree(s)
    requires forall j | 0 <= j < |s| :: FitsArrowFree(s, r, j)
    ensures ArrowFree(ReplaceAll(s, r))
  {
    forall j | 0 <= j < |s| ensures HitFits(s, r, j, DashGreater) {
      assert FitsArrowFree(s, r, j);
    }
    forall j | 0 <= j < |s| && !HitsAt(s, r, j) ensures NotOtherArrow(s[j]) {
      assert s[j] in s;
    }
    forall j, c | 0 <= j < |s| && HitsAt(s, r, j) && c in r(s, j).value.out
      ensures NotOtherArrow(c)
    {
      assert FitsArrowFree(s, r, j);
    }
    ReplaceKeepsPairFree(s, r, 0, DashGreater);
    ReplaceKeepsCharProperty(s, r, 0, NotOtherArrow);
  }

  /** The arrow pass leaves no `->` and no arrow character but `→` behind. */
  lemma ArrowPassCleans(s: string)
    ensures ArrowFree(ReplaceAll(s, Arrows))
  {
    ArrowsRemoved(s, 0);
    ReplaceKeepsCharProperty(s, Arrows, 0, NotOtherArrow);
  }

  lemma {:induction false} ArrowsRemoved(s: string, i: nat)
    requires i <= |s|
    ensures PairFree(ReplaceFrom(s, Arrows, i), DashGreater)
    ensures i < |s| ==> ReplaceFrom(s, Arrows, i) != []
                        && (ReplaceFrom(s, Arrows, i)[0] == '>' ==> s[i] == '>')
    decreases |s| - i
  {
    if i < |s| {
      if HitsAt(s, Arrows, i) {
        ArrowsRemoved(s, i + Arrows(s, i).value.len);
        ArrowHitStep(s, i);
      } else {
        ArrowsRemoved(s, i + 1);
        ArrowKeepStep(s, i);
      }
    }
  }

  /** A matched arrow becomes `Arrow`, which ends in a space and so cannot
      start a `->` with what follows. */
  lemma ArrowHitStep(s: string, i: nat)
    requires HitsAt(s, Arrows, i)
    requires PairFree(ReplaceFrom(s, Arrows, i + Arrows(s, i).value.len), DashGreater)
    ensures PairFree(ReplaceFrom(s, Arrows, i), DashGreater)
    ensures ReplaceFrom(s, Arrows, i) != [] && ReplaceFrom(s, Arrows, i)[0] != '>'
  {
    var rest := ReplaceFrom(s, Arrows, i + Arrows(s, i).value.len);
    assert ReplaceFrom(s, Arrows, i) == Arrow + rest;
    ArrowArrowFree();
    PairFreeAppend(Arrow, rest, DashGreater);
  }

  /** A kept character cannot start a `->` with the output that follows it. */
  lemma ArrowKeepStep(s: string, i: nat)
    requires i < |s| && !HitsAt(s, Arrows, i)
    requires PairFree(ReplaceFrom(s, Arrows, i + 1), DashGreater)
    requires i + 1 < |s| ==>
      ReplaceFrom(s, Arrows, i + 1) != [] && (ReplaceFrom(s, Arrows, i + 1)[0] == '>' ==> s[i + 1] == '>')
    ensures PairFree(ReplaceFrom(s, Arrows, i), DashGreater)
    ensures ReplaceFrom(s, Arrows, i) != [] && ReplaceFrom(s, Arrows, i)[0] == s[i]
  {
    var rest := ReplaceFrom(s, Arrows, i + 1);
    assert ReplaceFrom(s, Arrows, i) == s[i..i + 1] + rest;
    KeptDashNotArrow(s, i);
    PairFreeAppend(s[i..i + 1], rest, DashGreater);
  }

  /** A `-` the arrow pass keeps is not followed by `>`. */
  lemma KeptDashNotArrow(s: string, i: nat)
    requires i < |s| && !HitsAt(s, Arrows, i)
    ensures i + 1 < |s| ==> !DashGreater(s[i], s[i + 1])
    ensures PairFree(s[i..i + 1], DashGreater)
  {
    assert At(s, i, "->") <==> i + 2 <= |s| && s[i..i + 2] == "->";
  }

  lemma SubscriptsKeepArrowFree(s: string)
    requires ArrowFree(s)
    ensures ArrowFree(ReplaceAll(s, Subscripts))
  {
    TagsArrowFree();
    forall j | 0 <= j < |s| ensures FitsArrowFree(s, Subscripts, j) {
      if HitsAt(s, Subscripts, j) {
        var e := DigitEnd(s, j + 1);
        WrapArrowFree(s, j + 1, e, "<sub>", "</sub>");
        SliceArrowFree(s, j, j + 1);
        AppendArrowFree(s[j..j + 1], "<sub>" + s[j + 1..e] + "</sub>");
      }
    }
    PassKeepsArrowFree(s, Subscripts);
  }

  lemma ChargesKeepArrowFree(s: string)
    requires ArrowFree(s)
    ensures ArrowFree(ReplaceAll(s, Charges))
  {
    TagsArrowFree();
    forall j | 0 <= j < |s| ensures FitsArrowFree(s, Charges, j) {
      if HitsAt(s, Charges, j) {
        var d := DigitEnd(s, j + 1);
        WrapArrowFree(s, j + 1, d + 1, "<sup>", "</sup>");
        SliceArrowFree(s, j, j + 1);
        AppendArrowFree(s[j..j + 1], "<sup>" + s[j + 1..d + 1] + "</sup>");
      }
    }
    PassKeepsArrowFree(s, Charges);
  }

  lemma StatesKeepArrowFree(s: string)
    requires ArrowFree(s)
    ensures ArrowFree(ReplaceAll(s, States))
  {
    TagsArrowFree();
    forall j | 0 <= j < |s| ensures FitsArrowFree(s, States, j) {
      if HitsAt(s, States, j) {
        WrapArrowFree(s, j, j + States(s, j).value.len, "<sub>", "</sub>");
      }
    }
    PassKeepsArrowFree(s, States);
  }

  lemma HeatsKeepArrowFree(s: string)
    requires ArrowFree(s)
    ensures ArrowFree(ReplaceAll(s, Heats))
  {
    HeatTagsArrowFree();
    forall j | 0 <= j < |s| ensures FitsArrowFree(s, Heats, j) {
      if HitsAt(s, Heats, j) {
        WrapArrowFree(s, j, HeatEnd(s, j).value, HeatOpen, "</span>");
      }
    }
    PassKeepsArrowFree(s, Heats);
  }

  // What each pass writes

  /** An arrow match: `<->`, `->` or one arrow character, written as `Arrow`. */
  predicate ArrowMark(p: Piece) {
    p.Swapped? ==>
      && (p.text == "<->" || p.text == "->" || (|p.text| == 1 && IsArrowChar(p.text[0])))
      && p.out == Arrow
  }

  /** A letter and its digits, the digits written as a subscript. */
  predicate SubscriptMark(p: Piece) {
    p.Swapped? ==>
      && 2 <= |p.text| && IsLetter(p.text[0]) && AllDigits(p.text[1..])
      && p.out == p.text[..1] + ("<sub>" + p.text[1..] + "</sub>")
  }

  /** A letter or `)`, digits and a sign, the charge written as a superscript. */
  predicate ChargeMark(p: Piece) {
    p.Swapped? ==>
      && 2 <= |p.text| && (IsLetter(p.text[0]) || p.text[0] == ')')
      && AllDigits(p.text[1..|p.text| - 1])
      && (p.text[|p.text| - 1] == '+' || p.text[|p.text| - 1] == '-')
      && p.out == p.text[..1] + ("<sup>" + p.text[1..] + "</sup>")
  }

  /** A state `(g)`, `(l)`, `(s)` or `(aq)`, written as a subscript with its parentheses. */
  predicate StateMark(p: Piece) {
    p.Swapped? ==>
      && 3 <= |p.text| && p.text[0] == '(' && p.text[|p.text| - 1] == ')'
      && p.text[1..|p.text| - 1] in StateNames
      && p.out == "<sub>" + p.text + "</sub>"
  }

  /** `t` is `w` up to case folding. */
  predicate FoldedIs(t: string, w: string) { |t| == |w| && AtFolded(t, 0, w) }

  /** What the heat pattern accepts as a whole: `Δ`, `heat`, `catalyst`,
      `cat.` in any case, or digits, `°` and `C` or `c`. */
  predicate HeatWord(t: string) {
    || FoldedIs(t, "\U{0394}") || FoldedIs(t, "heat") || FoldedIs(t, "catalyst") || FoldedIs(t, "cat.")
    || (3 <= |t| && AllDigits(t[..|t| - 2]) && t[|t| - 2] == '\U{00B0}' && Canon(t[|t| - 1]) == 'C')
  }

  /** A heat indicator, written inside the red span. */
  predicate HeatMark(p: Piece) {
    p.Swapped? ==> HeatWord(p.text) && p.out == HeatOpen + p.text + "</span>"
  }

  lemma ArrowsPiece(s: string, p: Piece)
    requires Faithful(s, Arrows, p)
    ensures ArrowMark(p)
  {
  }

  lemma ArrowsSpelled(s: string)
    ensures Spells(s, Arrows, ReplaceAll(s, Arrows), ArrowMark)
  {
    var ps := PiecesFrom(s, Arrows, 0);
    PiecesSpell(s, Arrows, 0);
    forall k | 0 <= k < |ps| ensures ArrowMark(ps[k]) {
      ArrowsPiece(s, ps[k]);
    }
  }

  lemma SubscriptsPiece(s: string, p: Piece)
    requires Faithful(s, Subscripts, p)
    ensures SubscriptMark(p)
  {
    if p.Swapped? {
      var i := p.at;
      var e := DigitEnd(s, i + 1);
      var t := p.text;
      assert t == s[i..e];
      assert t[..1] == s[i..i + 1];
      assert t[1..] == s[i + 1..e];
    }
  }

  lemma SubscriptsSpelled(s: string)
    ensures Spells(s, Subscripts, ReplaceAll(s, Subscripts), SubscriptMark)
  {
    var ps := PiecesFrom(s, Subscripts, 0);
    PiecesSpell(s, Subscripts, 0);
    forall k | 0 <= k < |ps| ensures SubscriptMark(ps[k]) {
      SubscriptsPiece(s, ps[k]);
    }
  }

  lemma ChargesPiece(s: string, p: Piece)
    requires Faithful(s, Charges, p)
    ensures ChargeMark(p)
  {
    if p.Swapped? {
      var i := p.at;
      var d := DigitEnd(s, i + 1);
      var t := p.text;
      assert t == s[i..d + 1];
      assert t[..1] == s[i..i + 1];
      assert t[1..] == s[i + 1..d + 1];
      forall m | 1 <= m < |t| - 1 ensures IsDigit(t[m]) {
        assert t[m] == s[i + m];
      }
    }
  }

  lemma ChargesSpelled(s: string)
    ensures Spells(s, Charges, ReplaceAll(s, Charges), ChargeMark)
  {
    var ps := PiecesFrom(s, Charges, 0);
    PiecesSpell(s, Charges, 0);
    forall k | 0 <= k < |ps| ensures ChargeMark(ps[k]) {
      ChargesPiece(s, ps[k]);
    }
  }

  lemma StatesPiece(s: string, p: Piece)
    requires Faithful(s, States, p)
    ensures StateMark(p)
  {
    if p.Swapped? {
      var i := p.at;
      var n := FirstNameAt(s, i + 1, StateNames).value;
      var t := p.text;
      assert t == s[i..i + |n| + 2];
      assert s[i + 1 + |n|..i + 2 + |n|] == ")";
      assert t[|t| - 1] == s[i + 1 + |n|];
      assert t[1..|t| - 1] == s[i + 1..i + 1 + |n|];
    }
  }

  lemma StatesSpelled(s: string)
    ensures Spells(s, States, ReplaceAll(s, States), StateMark)
  {
    var ps := PiecesFrom(s, States, 0);
    PiecesSpell(s, States, 0);
    forall k | 0 <= k < |ps| ensures StateMark(ps[k]) {
      StatesPiece(s, ps[k]);
    }
  }

  /** A case-insensitive literal at `i` is, cut out, that literal up to case. */
  lemma FoldedSlice(s: string, i: nat, w: string)
    requires AtFolded(s, i, w)
    ensures FoldedIs(s[i..i + |w|], w)
  {
    var t := s[i..i + |w|];
    assert forall k | 0 <= k < |w| :: t[k] == s[i + k];
  }

  lemma HeatEndWord(s: string, i: nat)
    requires HeatEnd(s, i).Some?
    ensures HeatWord(s[i..HeatEnd(s, i).value])
  {
    var e := HeatEnd(s, i).value;
    if AtFolded(s, i, "\U{0394}") {
      FoldedSlice(s, i, "\U{0394}");
    } else if AtFolded(s, i, "heat") {
      FoldedSlice(s, i, "heat");
    } else if AtFolded(s, i, "catalyst") {
      FoldedSlice(s, i, "catalyst");
    } else if AtFolded(s, i, "cat.") {
      FoldedSlice(s, i, "cat.");
    } else {
      var d := DigitEnd(s, i);
      var t := s[i..e];
      assert t[..|t| - 2] == s[i..d];
    }
  }

  lemma HeatsPiece(s: string, p: Piece)
    requires Faithful(s, Heats, p)
    ensures HeatMark(p)
  {
    if p.Swapped? {
      HeatEndWord(s, p.at);
    }
  }

  lemma HeatsSpelled(s: string)
    ensures Spells(s, Heats, ReplaceAll(s, Heats), HeatMark)
  {
    var ps := PiecesFrom(s, Heats, 0);
    PiecesSpell(s, Heats, 0);
    forall k | 0 <= k < |ps| ensures HeatMark(ps[k]) {
      HeatsPiece(s, ps[k]);
    }
  }

  // ---------------------------------------------------------------------
  // Tables
  // ---------------------------------------------------------------------

  /** The trimmed pieces of `parts` that are not empty, in order. */
  function NonBlank(parts: seq<string>): (cells: seq<string>)
    ensures |cells| <= |parts|
    ensures forall k | 0 <= k < |cells| :: cells[k] != [] && Trim(cells[k]) == cells[k]
  {
    if parts == [] then []
    else
      var t := Trim(parts[0]);
      var rest := NonBlank(parts[1..]);
      if t == [] then rest
      else
        TrimOfTrimmed(t);
        [t] + rest
  }

  /** Nothing is kept exactly when every part trims to nothing. */
  lemma {:induction false} NonBlankEmptyIffBlank(parts: seq<string>)
    ensures NonBlank(parts) == [] ==> forall k | 0 <= k < |parts| :: Trim(parts[k]) == []
    ensures (forall k | 0 <= k < |parts| :: Trim(parts[k]) == []) ==> NonBlank(parts) == []
  {
    if parts != [] {
      NonBlankEmptyIffBlank(parts[1..]);
      assert forall k | 1 <= k < |parts| :: parts[k] == parts[1..][k - 1];
    }
  }

  /** `line.split('|').map(c => c.trim()).filter(c => c)` */
  function Cells(line: string): seq<string> {
    NonBlank(Split(line, '|'))
  }

  /** `open + x + close` for each item, in order. */
  function Tagged(open: string, close: string, items: seq<string>): string {
    if items == [] then []
    else Tagged(open, close, items[..|items| - 1]) + (open + items[|items| - 1] + close)
  }

  lemma TaggedStep(open: string, close: string, items: seq<string>, k: nat)
    requires k < |items|
    ensures Tagged(open, close, items[..k + 1]) == Tagged(open, close, items[..k]) + (open + items[k] + close)
  {
    assert items[..k + 1][..k] == items[..k];
  }

  /** The body row of one line; a line without cells gives none. */
  function Row(line: string): string {
    var cells := Cells(line);
    if cells == [] then [] else "<tr>" + Tagged("<td>", "</td>", cells) + "</tr>"
  }

  function Rows(lines: seq<string>): string {
    if lines == [] then [] else Rows(lines[..|lines| - 1]) + Row(lines[|lines| - 1])
  }

  lemma RowsStep(lines: seq<string>, k: nat)
    requires k < |lines|
    ensures Rows(lines[..k + 1]) == Rows(lines[..k]) + Row(lines[k])
  {
    assert lines[..k + 1][..k] == lines[..k];
  }

  function TableLines(content: string): seq<string> {
    Split(Trim(content), '\n')
  }

  // Long markup literals are written as short pieces joined with `+`: facts
  // about single characters of them then stay cheap for the verifier.
  const TableOpen: string := "<t" + "able class=\"math-table\">"
  const InvalidTable: string := "<d" + "iv class=\"math-error\">Invalid table format</div>"

  /** The header part: the first line's cells, when the second line holds a `-`. */
  function TableHead(lines: seq<string>): string
    requires |lines| >= 2
  {
    if '-' in lines[1] then "<thead>" + ("<tr>" + Tagged("<th>", "</th>", Cells(lines[0])) + "</tr></thead>") else []
  }

  /** The lines that become body rows: all after the header and separator,
      or, without a header, all but the first. */
  function BodyLines(lines: seq<string>): seq<string>
    requires |lines| >= 2
  {
    if '-' in lines[1] then lines[2..] else lines[1..]
  }

  /** Everything after the opening `<table>` tag. */
  function TableRest(lines: seq<string>): string
    requires |lines| >= 2
  {
    TableHead(lines) + ("<tbody>" + Rows(BodyLines(lines)) + "</tbody></table>")
  }

  /** What `formatTable` returns. */
  function TableHtml(content: string): string {
    var lines := TableLines(content);
    if |lines| < 2 then InvalidTable else TableOpen + TableRest(lines)
  }

  /** `formatTable`, building the markup line by line and cell by cell. */
  method FormatTable(content: string) returns (html: string)
    ensures html == TableHtml(content)
  {
    var lines := Split(Trim(content), '\n');
    if |lines| < 2 {
      return InvalidTable;
    }
    var headers := Cells(lines[0]);
    var hasHeaders := '-' in lines[1];
    html := TableOpen;
    var head := "";
    if hasHeaders {
      var ths := TagEach("<th>", "</th>", headers);
      head := "<thead>" + ("<tr>" + ths + "</tr></thead>");
    }
    var rest := BodyLines(lines);
    var body := "";
    for k := 0 to |rest|
      invariant body == Rows(rest[..k])
    {
      RowsStep(rest, k);
      var row := TableRow(rest[k]);
      body := body + row;
    }
    assert rest[..|rest|] == rest;
    html := html + (head + ("<tbody>" + body + "</tbody></table>"));
  }

  /** The `for (const x of items) html += open + x + close` loops. */
  method TagEach(open: string, close: string, items: seq<string>) returns (out: string)
    ensures out == Tagged(open, close, items)
  {
    out := "";
    for k := 0 to |items|
      invariant out == Tagged(open, close, items[..k])
    {
      TaggedStep(open, close, items, k);
      out := out + (open + items[k] + close);
    }
    assert items[..|items|] == items;
  }

  /** One pass of the body loop: the row for `line`, or nothing when the
      line has no cells. */
  method TableRow(line: string) returns (row: string)
    ensures row == Row(line)
  {
    var cells := Cells(line);
    if |cells| == 0 {
      return "";
    }
    var tds := TagEach("<td>", "</td>", cells);
    row := "<tr>" + tds + "</tr>";
  }

  /** The error card comes back exactly when the trimmed content has fewer
      than two lines. */
  lemma TableErrorIffShort(content: string)
    ensures TableHtml(content) == InvalidTable <==> |TableLines(content)| < 2
  {
    var lines := TableLines(content);
    if |lines| >= 2 {
      TableMarkupShapes();
      PrefixIndex(TableOpen, TableRest(lines), 1);
    }
  }

  lemma PrefixIndex(p: string, rest: string, k: nat)
    requires k < |p|
    ensures (p + rest)[k] == p[k]
  {
  }

  lemma TableMarkupShapes()
    ensures |TableOpen| > 1 && TableOpen[1] == 't'
    ensures |InvalidTable| > 1 && InvalidTable[1] == 'd'
  {
  }

  /** A table has a header exactly when its second line holds a `-`. */
  lemma HeaderIffDash(content: string)
    requires |TableLines(content)| >= 2
    ensures At(TableHtml(content), |TableOpen|, "<thead>") <==> '-' in TableLines(content)[1]
  {
    var lines := TableLines(content);
    assert TableHtml(content) == TableOpen + TableRest(lines);
    HeadIffDash(lines);
  }

  lemma HeadIffDash(lines: seq<string>)
    requires |lines| >= 2
    ensures At(TableOpen + TableRest(lines), |TableOpen|, "<thead>") <==> '-' in lines[1]
  {
    var t := if '-' in lines[1] then "<thead>" else "<tbody>";
    RestOpensWith(lines);
    AtShift(TableOpen, TableRest(lines), t);
    HeadTagsDiffer();
  }

  /** The markup after `<table>` opens with the header, or else with the body. */
  lemma RestOpensWith(lines: seq<string>)
    requires |lines| >= 2
    ensures At(TableRest(lines), 0, if '-' in lines[1] then "<thead>" else "<tbody>")
  {
    var tail := "<tbody>" + Rows(BodyLines(lines)) + "</tbody></table>";
    AtStart("<tbody>", Rows(BodyLines(lines)) + "</tbody></table>");
    if '-' in lines[1] {
      var head := TableHead(lines);
      AtStart("<thead>", head[7..]);
      AtExtend(head, tail, "<thead>");
    } else {
      assert TableRest(lines) == tail;
    }
  }

  lemma HeadTagsDiffer()
    ensures "<tbody>" != "<thead>" && |"<tbody>"| == |"<thead>"|
  {
    assert "<tbody>"[2] != "<thead>"[2];
  }

  lemma AtStart(t: string, x: string)
    ensures At(t + x, 0, t)
  {
    assert (t + x)[..|t|] == t;
  }

  lemma AtExtend(a: string, b: string, t: string)
    requires At(a, 0, t)
    ensures At(a + b, 0, t)
  {
    assert (a + b)[..|t|] == a[..|t|];
  }

  lemma AtShift(p: string, r: string, t: string)
    requires At(r, 0, t)
    ensures At(p + r, |p|, t)
  {
    assert (p + r)[|p|..|p| + |t|] == r[..|t|];
  }

  /** Without a header the first line is dropped: two contents that differ
      only in their first line give the same table. */
  lemma FirstLineIgnored(a: string, b: string)
    requires |TableLines(a)| >= 2 && TableLines(a)[1..] == TableLines(b)[1..]
    requires '-' !in TableLines(a)[1]
    ensures TableHtml(a) == TableHtml(b)
  {
    assert TableLines(a)[1] == TableLines(a)[1..][0] == TableLines(b)[1];
  }

  /** A line gets a body row exactly when some piece between its bars is
      not blank. */
  lemma RowOmittedIffBlank(line: string)
    ensures Row(line) == [] ==> forall k | 0 <= k < |Split(line, '|')| :: Trim(Split(line, '|')[k]) == []
    ensures (forall k | 0 <= k < |Split(line, '|')| :: Trim(Split(line, '|')[k]) == []) ==> Row(line) == []
  {
    NonBlankEmptyIffBlank(Split(line, '|'));
  }

  // ---------------------------------------------------------------------
  // Note blocks
  // ---------------------------------------------------------------------

  datatype NoteType = ImportantNote | TipNote | ExampleNote | WarningNote | StepsNote | DefinitionNote

  /** The type's name, which is also the card's second class. */
  function NoteName(t: NoteType): string {
    match t
    case ImportantNote => "important"
    case TipNote => "tip"
    case ExampleNote => "example"
    case WarningNote => "warning"
    case StepsNote => "steps"
    case DefinitionNote => "definition"
  }

  function NoteIcon(t: NoteType): string {
    match t
    case ImportantNote => "\U{1F511}"
    case TipNote => "\U{1F4A1}"
    case ExampleNote => "\U{1F4DD}"
    case WarningNote => "\U{26A0}\U{FE0F}"
    case StepsNote => "\U{1F4CB}"
    case DefinitionNote => "\U{1F4DA}"
  }

  function NoteTitle(t: NoteType): string {
    match t
    case ImportantNote => "Key Concept"
    case TipNote => "Helpful Tip"
    case ExampleNote => "Example"
    case WarningNote => "Warning"
    case StepsNote => "Step-by-Step"
    case DefinitionNote => "Definition"
  }

  // Long markup literals are written as short pieces joined with `+`: facts
  // about single characters of them then stay cheap for the verifier.
  const CardOpen: string := "<" + "div class=\"note-block "
  const CardClose: string := "\n    </div" + ">"

  /** The note card, as the template reads once its outer indentation is trimmed. */
  function NoteCard(t: NoteType, title: string, content: string): string {
    CardOpen + CardInner(t, title, content) + CardClose
  }

  function CardInner(t: NoteType, title: string, content: string): string {
    NoteName(t) + "\">\n"
    + "      <div class=\"note-block-header text-gray-800 dark:text-gray-200\">\n"
    + "        <span class=\"text-xl\">" + NoteIcon(t) + "</span>\n"
    + "        <span>" + title + "</span>\n"
    + "      </div>\n"
    + "      <div class=\"note-block-content text-gray-700 dark:text-gray-300\">\n"
    + "        " + content + "\n"
    + "      </div>"
  }

  /** `formatNoteBlock`: the template with its surrounding line breaks and
      indentation, trimmed. The custom title is used when it is given and
      not empty (`customTitle || titles[type]`). */
  function NoteBlock(t: NoteType, content: string, customTitle: Option<string>): (r: string)
    ensures customTitle.Some? && customTitle.value != [] ==> r == NoteCard(t, customTitle.value, content)
    ensures customTitle.None? || customTitle.value == [] ==> r == NoteCard(t, NoteTitle(t), content)
  {
    var title := if customTitle.Some? && customTitle.value != [] then customTitle.value else NoteTitle(t);
    TrimmedCard(t, title, content);
    Trim("\n    " + NoteCard(t, title, content) + "\n  ")
  }

  /** Trimming takes off exactly the line breaks and indentation around the card. */
  lemma TrimmedCard(t: NoteType, title: string, content: string)
    ensures Trim("\n    " + NoteCard(t, title, content) + "\n  ") == NoteCard(t, title, content)
  {
    CardEnds(t, title, content);
    TemplateIndents();
    TrimFramed("\n    ", NoteCard(t, title, content), "\n  ");
  }

  lemma TemplateIndents()
    ensures AllSpace("\n    ") && AllSpace("\n  ")
  {
  }

  lemma CardEnds(t: NoteType, title: string, content: string)
    ensures var card := NoteCard(t, title, content);
      card != [] && card[0] == '<' && card[|card| - 1] == '>'
  {
    CardPieces();
    Ends(CardOpen, CardInner(t, title, content), CardClose);
  }

  lemma CardPieces()
    ensures |CardOpen| > 0 && CardOpen[0] == '<'
    ensures |CardClose| > 0 && CardClose[|CardClose| - 1] == '>'
  {
  }

  lemma Ends(a: string, m: string, b: string)
    requires a != [] && b != []
    ensures (a + m + b)[0] == a[0] && (a + m + b)[|a + m + b| - 1] == b[|b| - 1]
  {
  }
}
