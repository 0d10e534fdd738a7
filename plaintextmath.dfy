/**
 * `convertPlainTextMath` of the Lambda client: eight trigonometric identities
 * written out in plain text (`sin(θ) = opposite/hypotenuse`, …) become fixed
 * `[MATH]…[/MATH]` display math. Each identity is a case-insensitive pattern
 * with optional white space around `=` and `/`, replaced globally, one
 * identity after the other.
 */
module PlainTextMath {
  import opened Wrappers
  import opened Text
  import opened Scan
  import opened Newlines

  /** A piece of an identity's pattern: literal text (compared under the `i`
      flag), a greedy `\s*`, or a two-way alternation. */
  datatype Tok = Lit(text: string) | Spaces | Either(first: string, second: string)

  /** Where the pattern `toks` matches from `j`, if it does. A greedy `\s*`
      never gives characters back here: no literal of these patterns starts
      with white space, so backtracking into the run could not help. */
  function MatchToks(s: string, j: nat, toks: seq<Tok>): (e: Option<nat>)
    requires j <= |s|
    ensures e.Some? ==> j <= e.value <= |s|
    ensures e.Some? && toks != [] && toks[0].Lit? ==> AtFolded(s, j, toks[0].text)
    decreases |toks|
  {
    if toks == [] then Some(j)
    else match toks[0]
      case Lit(t) => if AtFolded(s, j, t) then MatchToks(s, j + |t|, toks[1..]) else None
      case Spaces => MatchToks(s, SpaceEnd(s, j), toks[1..])
      case Either(a, b) =>
        var left := if AtFolded(s, j, a) then MatchToks(s, j + |a|, toks[1..]) else None;
        if left.Some? then left
        else if AtFolded(s, j, b) then MatchToks(s, j + |b|, toks[1..])
        else None
  }

  /** A pattern and the display math that replaces its matches. */
  datatype Identity = Identity(pattern: seq<Tok>, latex: string)

  /** One identity as a rule for the scanner. */
  function IdentityHit(id: Identity, s: string, i: nat): (h: Option<Hit>)
    ensures h.Some? ==> i <= |s| && i + h.value.len <= |s| && h.value.out == id.latex
    ensures h.Some? && id.pattern != [] && id.pattern[0].Lit? ==> AtFolded(s, i, id.pattern[0].text)
  {
    if i <= |s| then
      match MatchToks(s, i, id.pattern)
      case Some(e) => Some(Hit(e - i, id.latex))
      case None => None
    else None
  }

  function IdentityRule(id: Identity): Rule {
    (s: string, i: nat) => IdentityHit(id, s, i)
  }

  /** Each identity in turn, replaced globally. */
  function ApplyIdentities(s: string, ids: seq<Identity>): string
    decreases |ids|
  {
    if ids == [] then s else ApplyIdentities(ReplaceAll(s, IdentityRule(ids[0])), ids[1..])
  }

  // The replacement texts, built from their parts.

  function Display(body: string): string { "[MATH]" + body + "[/MATH]" }
  function Frac(a: string, b: string): string { "\\frac{" + a + "}{" + b + "}" }
  function Upright(word: string): string { "\\text{" + word + "}" }
  function Trig(name: string, arg: string): string { "\\" + name + "(" + arg + ")" }

  const Theta: char := '\U{03B8}'
  const Degree: char := '\U{00B0}'
  const Radical: char := '\U{221A}'

  /** `name(θ)`, `name(30°)`, … as a literal of a pattern. */
  function Call(name: string, arg: string): Tok { Lit(name + "(" + arg + ")") }

  /** `lhs\s*=\s*a\s*\/\s*b` */
  function Ratio(lhs: Tok, a: string, b: Tok): seq<Tok> {
    [lhs, Spaces, Lit("="), Spaces, Lit(a), Spaces, Lit("/"), Spaces, b]
  }

  const SinRatio := Identity(Ratio(Call("sin", [Theta]), "opposite", Lit("hypotenuse")),
    Display(Trig("sin", "\\theta") + " = " + Frac(Upright("opposite"), Upright("hypotenuse"))))
  const CosRatio := Identity(Ratio(Call("cos", [Theta]), "adjacent", Lit("hypotenuse")),
    Display(Trig("cos", "\\theta") + " = " + Frac(Upright("adjacent"), Upright("hypotenuse"))))
  const TanRatio := Identity(Ratio(Call("tan", [Theta]), "opposite", Lit("adjacent")),
    Display(Trig("tan", "\\theta") + " = " + Frac(Upright("opposite"), Upright("adjacent"))))
  const SinThirty := Identity(Ratio(Call("sin", "30" + [Degree]), "1", Lit("2")),
    Display(Trig("sin", "30^\\circ") + " = " + Frac("1", "2")))
  const SinFortyFive := Identity(Ratio(Call("sin", "45" + [Degree]), "1", Either([Radical] + "2", "sqrt(2)")),
    Display(Trig("sin", "45^\\circ") + " = " + Frac("1", "\\sqrt{2}")))
  const SinY := Identity([Call("sin", [Theta]), Spaces, Lit("="), Spaces, Lit("y")],
    Display(Trig("sin", "\\theta") + " = " + "y"))
  const CosX := Identity([Call("cos", [Theta]), Spaces, Lit("="), Spaces, Lit("x")],
    Display(Trig("cos", "\\theta") + " = " + "x"))
  const TanYX := Identity(Ratio(Call("tan", [Theta]), "y", Lit("x")),
    Display(Trig("tan", "\\theta") + " = " + Frac("y", "x")))

  /** The eight identities, in the order they are applied. */
  const Identities: seq<Identity> := [SinRatio, CosRatio, TanRatio, SinThirty, SinFortyFive, SinY, CosX, TanYX]

  function ConvertPlainTextMath(content: string): string {
    ApplyIdentities(content, Identities)
  }

  // ---------------------------------------------------------------------
  // Why a rewritten identity is never matched again

  /** θ in any case, or the degree sign: every pattern needs one. */
  predicate Marker(c: char) { Canon(c) == '\U{0398}' || Canon(c) == Degree }

  predicate Unmarked(s: string) { forall k | 0 <= k < |s| :: !Marker(s[k]) }

  /** The first literal of the pattern carries a marker; the display math
      is one line, non-empty and free of markers. */
  predicate WellFormed(id: Identity) {
    && id.pattern != [] && id.pattern[0].Lit? && !Unmarked(id.pattern[0].text)
    && id.latex != [] && '\n' !in id.latex && Unmarked(id.latex)
  }

  /** Every match of a well-formed identity holds a marker. */
  lemma HitHasMarker(id: Identity, s: string, i: nat)
    requires WellFormed(id)
    requires IdentityHit(id, s, i).Some?
    ensures !Unmarked(s)
  {
    var t := id.pattern[0].text;
    var m :| 0 <= m < |t| && Marker(t[m]);
    assert Canon(s[i + m]) == Canon(t[m]);
    assert Marker(s[i + m]);
  }

  lemma UnmarkedHasNoHit(id: Identity, s: string, i: nat)
    requires WellFormed(id)
    ensures Unmarked(s) ==> !HitsAt(s, IdentityRule(id), i)
  {
    if IdentityHit(id, s, i).Some? {
      HitHasMarker(id, s, i);
    }
  }

  /** Text without θ and without the degree sign passes through every
      identity unchanged. */
  lemma {:induction false} UnmarkedUnchanged(s: string, ids: seq<Identity>)
    requires forall k | 0 <= k < |ids| :: WellFormed(ids[k])
    requires Unmarked(s)
    ensures ApplyIdentities(s, ids) == s
    decreases |ids|
  {
    if ids != [] {
      forall j | 0 <= j < |s| ensures !HitsAt(s, IdentityRule(ids[0]), j) {
        UnmarkedHasNoHit(ids[0], s, j);
      }
      ReplaceWithoutHits(s, IdentityRule(ids[0]), 0);
      UnmarkedUnchanged(s, ids[1..]);
    }
  }

  /** One line and free of markers. */
  predicate Clean(s: string) { '\n' !in s && Unmarked(s) }

  lemma CleanAppend(a: string, b: string)
    requires Clean(a) && Clean(b)
    ensures Clean(a + b)
  {
    forall k | 0 <= k < |a + b| ensures !Marker((a + b)[k]) {
      if k < |a| {
        assert (a + b)[k] == a[k];
      } else {
        assert (a + b)[k] == b[k - |a|];
      }
    }
  }

  lemma CleanDisplay(name: string, arg: string, rhs: string)
    requires Clean(name) && Clean(arg) && Clean(rhs)
    ensures Clean(Display(Trig(name, arg) + " = " + rhs))
    ensures Display(Trig(name, arg) + " = " + rhs) != []
  {
    CleanAppend("\\", name);
    CleanAppend("\\" + name, "(");
    CleanAppend("\\" + name + "(", arg);
    CleanAppend("\\" + name + "(" + arg, ")");
    CleanAppend(Trig(name, arg), " = ");
    CleanAppend(Trig(name, arg) + " = ", rhs);
    var body := Trig(name, arg) + " = " + rhs;
    CleanAppend("[MATH]", body);
    CleanAppend("[MATH]" + body, "[/MATH]");
  }

  lemma CleanFrac(a: string, b: string)
    requires Clean(a) && Clean(b)
    ensures Clean(Frac(a, b))
  {
    CleanAppend("\\frac{", a);
    CleanAppend("\\frac{" + a, "}{");
    CleanAppend("\\frac{" + a + "}{", b);
    CleanAppend("\\frac{" + a + "}{" + b, "}");
  }

  lemma CleanUpright(w: string)
    requires Clean(w)
    ensures Clean(Upright(w))
  {
    CleanAppend("\\text{", w);
    CleanAppend("\\text{" + w, "}");
  }

  lemma CleanWords()
    ensures Clean("opposite") && Clean("adjacent") && Clean("hypotenuse")
    ensures Clean("sin") && Clean("cos") && Clean("tan") && Clean("\\theta")
  {
  }

  lemma CleanNumbers()
    ensures Clean("1") && Clean("2") && Clean("x") && Clean("y")
    ensures Clean("30^\\circ") && Clean("45^\\circ") && Clean("\\sqrt{2}")
  {
  }

  /** `name(arg)` with a marker ending `arg` carries a marker. */
  lemma CallMarked(name: string, arg: string)
    requires arg != [] && Marker(arg[|arg| - 1])
    ensures !Unmarked(Call(name, arg).text)
  {
    var t := Call(name, arg).text;
    assert t[|name| + |arg|] == arg[|arg| - 1];
  }

  lemma MarkersOfCalls()
    ensures !Unmarked(Call("sin", [Theta]).text) && !Unmarked(Call("cos", [Theta]).text)
    ensures !Unmarked(Call("tan", [Theta]).text)
    ensures !Unmarked(Call("sin", "30" + [Degree]).text) && !Unmarked(Call("sin", "45" + [Degree]).text)
  {
    CallMarked("sin", [Theta]);
    CallMarked("cos", [Theta]);
    CallMarked("tan", [Theta]);
    CallMarked("sin", "30" + [Degree]);
    CallMarked("sin", "45" + [Degree]);
  }

  lemma RatiosWellFormed()
    ensures WellFormed(SinRatio) && WellFormed(CosRatio) && WellFormed(TanRatio)
  {
    MarkersOfCalls();
    CleanWords();
    CleanUpright("opposite");
    CleanUpright("adjacent");
    CleanUpright("hypotenuse");
    CleanFrac(Upright("opposite"), Upright("hypotenuse"));
    CleanFrac(Upright("adjacent"), Upright("hypotenuse"));
    CleanFrac(Upright("opposite"), Upright("adjacent"));
    CleanDisplay("sin", "\\theta", Frac(Upright("opposite"), Upright("hypotenuse")));
    CleanDisplay("cos", "\\theta", Frac(Upright("adjacent"), Upright("hypotenuse")));
    CleanDisplay("tan", "\\theta", Frac(Upright("opposite"), Upright("adjacent")));
  }

  lemma AnglesWellFormed()
    ensures WellFormed(SinThirty) && WellFormed(SinFortyFive)
  {
    MarkersOfCalls();
    CleanWords();
    CleanNumbers();
    CleanFrac("1", "2");
    CleanFrac("1", "\\sqrt{2}");
    CleanDisplay("sin", "30^\\circ", Frac("1", "2"));
    CleanDisplay("sin", "45^\\circ", Frac("1", "\\sqrt{2}"));
  }

  lemma ShortFormsWellFormed()
    ensures WellFormed(SinY) && WellFormed(CosX) && WellFormed(TanYX)
  {
    MarkersOfCalls();
    CleanWords();
    CleanNumbers();
    CleanFrac("y", "x");
    CleanDisplay("sin", "\\theta", "y");
    CleanDisplay("cos", "\\theta", "x");
    CleanDisplay("tan", "\\theta", Frac("y", "x"));
  }

  lemma IdentitiesWellFormed()
    ensures forall k | 0 <= k < |Identities| :: WellFormed(Identities[k])
  {
    RatiosWellFormed();
    AnglesWellFormed();
    ShortFormsWellFormed();
  }

  /** The display math of each identity is a fixed point of the whole
      conversion: no identity, earlier or later, matches it again. */
  lemma LatexIsFixedPoint(k: nat)
    requires k < |Identities|
    ensures ConvertPlainTextMath(Identities[k].latex) == Identities[k].latex
  {
    IdentitiesWellFormed();
    UnmarkedUnchanged(Identities[k].latex, Identities);
  }

  /** Text without θ and the degree sign is left alone. */
  lemma ConvertUnmarked(s: string)
    requires Unmarked(s)
    ensures ConvertPlainTextMath(s) == s
  {
    IdentitiesWellFormed();
    UnmarkedUnchanged(s, Identities);
  }

  /** The conversion never creates three consecutive line feeds. */
  lemma {:induction false} IdentitiesKeepNoTripleNewline(s: string, ids: seq<Identity>)
    requires forall k | 0 <= k < |ids| :: WellFormed(ids[k])
    requires NoTripleNewline(s)
    ensures NoTripleNewline(ApplyIdentities(s, ids))
    decreases |ids|
  {
    if ids != [] {
      var r := IdentityRule(ids[0]);
      forall j | 0 <= j < |s| && HitsAt(s, r, j)
        ensures FitsNewlines(s[j..j + r(s, j).value.len], r(s, j).value.out)
      {
        NoNewlineFits(s[j..j + r(s, j).value.len], r(s, j).value.out);
      }
      ReplaceKeepsNoTripleNewline(s, r, 0);
      IdentitiesKeepNoTripleNewline(ReplaceAll(s, r), ids[1..]);
    }
  }

  lemma ConvertKeepsNoTripleNewline(s: string)
    requires NoTripleNewline(s)
    ensures NoTripleNewline(ConvertPlainTextMath(s))
  {
    IdentitiesWellFormed();
    IdentitiesKeepNoTripleNewline(s, Identities);
  }
}

module PlainTextMathExamples {
  import opened Wrappers
  import opened Text
  import opened Scan
  import opened PlainTextMath

  /** The `i` flag and `\s*`: upper case and uneven spacing still match. */
  lemma LooseSpellingMatches()
    ensures IdentityHit(SinY, "SIN(" + [Theta] + ")  =Y!", 0) == Some(Hit(10, SinY.latex))
  {
    var s := "SIN(" + [Theta] + ")  =Y!";
    assert AtFolded(s, 0, "sin(" + [Theta] + ")");
    LooseSpellingTail(s);
  }

  /** After `SIN(θ)`: two spaces, `=`, no space, `Y`. */
  lemma LooseSpellingTail(s: string)
    requires s == "SIN(" + [Theta] + ")  =Y!"
    ensures MatchToks(s, 6, [Spaces, Lit("="), Spaces, Lit("y")]) == Some(10)
  {
    assert s[6] == ' ' && s[7] == ' ' && s[8] == '=';
    assert RunEnd(s, 8, IsSpace) == 8;
    assert RunEnd(s, 7, IsSpace) == 8;
    assert SpaceEnd(s, 6) == 8;
    assert AtFolded(s, 8, "=");
    assert s[9] == 'Y';
    assert SpaceEnd(s, 9) == 9;
    assert AtFolded(s, 9, "y");
    assert MatchToks(s, 10, []) == Some(10);
    assert MatchToks(s, 9, [Lit("y")]) == Some(10);
    assert MatchToks(s, 9, [Spaces, Lit("y")]) == Some(10);
    assert MatchToks(s, 8, [Lit("="), Spaces, Lit("y")]) == Some(10);
  }
}
