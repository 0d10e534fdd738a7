/**
 * `processContent` of the API service (src/services/apiService.ts): the
 * Lambda client's placeholders are looked up in a fixed table of formulas,
 * math is swapped for `__MATH_EXPRESSION_n__` tokens, the shared markdown
 * rules and an underline rule run, and the tokens are looked up again. The
 * underline rule `__(.*?)__` matches the tokens themselves, so the math
 * is never put back.
 */
module ApiService {
  import opened Wrappers
  import opened Text
  import opened Scan
  import opened Patterns
  import opened Json
  import opened Envelope
  import opened Markdown
  import opened Tokens

  // ---------------------------------------------------------------------
  // Placeholders from the Lambda client

  /** The table of common formulas the placeholders are looked up in. */
  const CommonMath: seq<string> := [
    "x", "ax^2 + bx + c = 0", "a", "b", "c", "a \\neq 0", "ax^2 + bx + c = 0", "x",
    "\\frac{-b \\pm \\sqrt{b^2 - 4ac}}{2a}", "x", "x^2 + 2x + 1 = 0"]

  /** Entry `n` of the table as inline math, or `$x$` past its end. */
  function TableMath(n: nat): (m: string)
    ensures n < 11 ==> m == "$" + CommonMath[n] + "$"
    ensures n >= 11 ==> m == "$x$"
  {
    if n < |CommonMath| then "$" + CommonMath[n] + "$" else "$x$"
  }

  /** `__MATH_PLACEHOLDER_(\d+)__`, replaced by the table's formula. */
  const TablePlaceholder: Rule := TokenRule(PlaceholderPrefix, TableMath)

  /** A placeholder alone becomes its formula: entry `n` of the table for
      `n` below 11, else `$x$`. */
  lemma PlaceholderFromTable(n: nat)
    ensures ReplaceAll(Token(PlaceholderPrefix, n), TablePlaceholder) == TableMath(n)
  {
    ReplaceToken(PlaceholderPrefix, TableMath, n);
  }

  /** Both placeholder passes: the table, then any leftover
      `MATH_PLACEHOLDER_<digits>` becomes `x`. */
  function Unplaceholder(s: string): string {
    ReplaceAll(ReplaceAll(s, TablePlaceholder), LoosePlaceholder)
  }

  // ---------------------------------------------------------------------
  // Protected math

  /** `(\$.*?\$|\[MATH\][\s\S]*?\[\/MATH\])`: the alternatives start with
      different characters, so at most one applies. */
  function ApiMath(s: string, i: nat): (h: Option<Hit>)
    ensures h.Some? ==> i < |s| && i + h.value.len <= |s| && h.value.out == s[i..i + h.value.len]
    ensures h.Some? && s[i] == '$' ==> LazyUntil(s, i + 1, "$", false) == Some(i + h.value.len - 1)
    ensures h.Some? && s[i] != '$' ==> At(s, i, "[MATH]") && LazyUntil(s, i + 6, "[/MATH]", true) == Some(i + h.value.len - 7)
  {
    if i < |s| && s[i] == '$' then
      match LazyUntil(s, i + 1, "$", false)
      case Some(k) => Some(Hit(k + 1 - i, s[i..k + 1]))
      case None => None
    else if At(s, i, "[MATH]") then
      match LazyUntil(s, i + 6, "[/MATH]", true)
      case Some(k) => Some(Hit(k + 7 - i, s[i..k + 7]))
      case None => None
    else None
  }

  // ---------------------------------------------------------------------
  // Underline, notes and the whole pass

  const UnderlineOpen: string := "<span class=\"border-b-2 " + "border-blue-400 dark:border-blue-500\">"

  /** `__(.*?)__` */
  function Underline(s: string, i: nat): Option<Hit> {
    Delimited(s, i, "__", "__", UnderlineOpen, "</span>")
  }

  /** The icons of this copy, as the file spells them: each emoji's UTF-8
      bytes read back as Mac Roman text. */
  function MojibakeIcon(k: NoteKind): string {
    match k
    case Important => "\U{F8FF}\U{00FC}\U{00EE}\U{00EB}"
    case Tip => "\U{F8FF}\U{00FC}\U{00ED}\U{00B0}"
    case Example => "\U{F8FF}\U{00FC}\U{00EC}\U{00F9}"
    case Steps => "\U{F8FF}\U{00FC}\U{00EC}\U{00E3}"
  }

  function MojibakeNote(s: string, i: nat): Option<Hit> {
    Note(MojibakeIcon, s, i)
  }

  /** The markdown rules of this copy, run on the protected text: the shared
      structure, underline, paragraphs and notes. */
  function Layout(t: string): string {
    ReplaceAll(Paragraphs(ReplaceAll(Structure(t), Underline)), MojibakeNote)
  }

  /** The formatted text for the protected text `t` and its list of math. */
  function Finish(t: string, blocks: seq<string>): string {
    Cleanup(Restore(ExpressionPrefix, blocks, Layout(t)))
  }

  /** `processContent`: the apology for empty or non-string content; else
      the placeholders fixed, the math protected, the text laid out, the
      math looked up again and the result cleaned up and trimmed. The
      lookup finds no token left by the layout, so the reply is the laid
      out protected text, with the math still swapped out. */
  method ProcessContent(content: Json) returns (r: string)
    ensures !(content.JStr? && content.s != []) ==> r == Apology
    ensures content.JStr? && content.s != [] ==>
      var fixed := Unplaceholder(content.s);
      r == Finish(ProtectFrom(fixed, ApiMath, ExpressionPrefix, 0, 0), MatchesFrom(fixed, ApiMath, 0))
    ensures content.JStr? && content.s != [] ==>
      r == Cleanup(Layout(ProtectFrom(Unplaceholder(content.s), ApiMath, ExpressionPrefix, 0, 0)))
    ensures r == [] || (!IsSpace(r[0]) && !IsSpace(r[|r| - 1]))
  {
    if !(content.JStr? && content.s != []) {
      assert Apology[0] == 'I' && Apology[|Apology| - 1] == '.';
      return Apology;
    }
    var fixed := Unplaceholder(content.s);
    var text, mathExpressions := Protect(fixed, ApiMath, ExpressionPrefix);
    r := Finish(text, mathExpressions);
    NoMathRestored(text, mathExpressions);
  }

  // ---------------------------------------------------------------------
  // The underline rule eats the tokens

  /** No two underscores in a row. */
  predicate NoDoubleUnderscore(x: string) {
    forall m | 0 <= m < |x| - 1 :: !(x[m] == '_' && x[m + 1] == '_')
  }

  lemma NoDoubleUnderscoreAppend(a: string, b: string)
    requires NoDoubleUnderscore(a) && NoDoubleUnderscore(b)
    requires a == [] || b == [] || a[|a| - 1] != '_' || b[0] != '_'
    ensures NoDoubleUnderscore(a + b)
  {
    var w := a + b;
    forall m | 0 <= m < |w| - 1
      ensures !(w[m] == '_' && w[m + 1] == '_')
    {
      if m + 1 < |a| {
        assert w[m] == a[m] && w[m + 1] == a[m + 1];
      } else if m >= |a| {
        assert w[m] == b[m - |a|] && w[m + 1] == b[m + 1 - |a|];
      }
    }
  }

  /** A token starts with two underscores. */
  lemma NoTokenStart(w: string, j: nat)
    requires NoDoubleUnderscore(w)
    ensures !At(w, j, ExpressionPrefix)
  {
    if j + 18 <= |w| {
      assert w[j] == w[j..j + 18][0] && w[j + 1] == w[j..j + 18][1];
      assert !(w[j] == '_' && w[j + 1] == '_');
    }
  }

  /** Text without a double underscore holds no `__MATH_EXPRESSION_n__`
      token: restoring changes nothing. */
  lemma RestoreWithoutDoubleUnderscore(blocks: seq<string>, w: string)
    requires NoDoubleUnderscore(w)
    ensures Restore(ExpressionPrefix, blocks, w) == w
  {
    var r := TokenRule(ExpressionPrefix, BlockLookup(blocks));
    forall j | 0 <= j < |w|
      ensures !HitsAt(w, r, j)
    {
      NoTokenStart(w, j);
    }
    ReplaceWithoutHits(w, r, 0);
  }

  /** What the underline rule leaves of a token: its name between the
      underscores, underlined. */
  function Eaten(n: nat): string {
    UnderlineOpen + "MATH_EXPRESSION_" + NatToString(n) + "</span>"
  }

  /** The middle of a token with digits `d`: no double underscore, a letter
      first and a digit last, on one line. */
  lemma TokenMiddle(d: string)
    requires d != [] && AllDigits(d)
    ensures var mid := "MATH_EXPRESSION_" + d;
      && NoDoubleUnderscore(mid) && mid[0] == 'M' && IsDigit(mid[|mid| - 1])
      && NoLineTerminator(mid)
  {
    var mid := "MATH_EXPRESSION_" + d;
    forall m | 0 <= m < |mid| - 1
      ensures !(mid[m] == '_' && mid[m + 1] == '_')
    {
      if m < 15 {
        assert mid[m + 1] == "MATH_EXPRESSION_"[m + 1];
      } else {
        assert mid[m + 1] == d[m + 1 - 16];
      }
    }
    forall m | 0 <= m < |mid|
      ensures !IsLineTerminator(mid[m])
    {
      if m >= 16 {
        assert mid[m] == d[m - 16];
      }
    }
  }

  /** The underline rule at `__mid__`, where `mid` is one line with no
      double underscore and no underscore at either end: the whole of it is
      matched and `mid` is underlined. */
  lemma UnderlineWrapped(s: string, i: nat, mid: string)
    requires mid != [] && mid[0] != '_' && mid[|mid| - 1] != '_'
    requires NoDoubleUnderscore(mid) && NoLineTerminator(mid)
    requires At(s, i, "__" + mid + "__")
    ensures Underline(s, i) == Some(Hit(|mid| + 4, UnderlineOpen + mid + "</span>"))
  {
    var j, k := i + 2, i + 2 + |mid|;
    UnderlinePieces(s, i, mid);
    UnderlineBodyClear(s, j, mid);
    LazyUntilFinds(s, j, "__", false, k);
  }

  /** Where the pieces of `__mid__` sit in `s`. */
  lemma UnderlinePieces(s: string, i: nat, mid: string)
    requires At(s, i, "__" + mid + "__")
    ensures At(s, i, "__") && s[i + 2..i + 2 + |mid|] == mid && At(s, i + 2 + |mid|, "__")
  {
    var x := "__" + mid + "__";
    var j, k := i + 2, i + 2 + |mid|;
    assert s[i..i + |x|] == x;
    assert s[i..j] == x[..2] == "__";
    assert s[k..k + 2] == x[2 + |mid|..] == "__";
    forall m | 0 <= m < |mid| ensures s[j + m] == mid[m] {
      assert s[j + m] == s[i..i + |x|][2 + m] == x[2 + m];
    }
    assert s[j..k] == mid;
  }

  /** Inside `mid`, no `__` starts and no line ends. */
  lemma UnderlineBodyClear(s: string, j: nat, mid: string)
    requires mid != [] && mid[|mid| - 1] != '_'
    requires NoDoubleUnderscore(mid) && NoLineTerminator(mid)
    requires j + |mid| <= |s| && s[j..j + |mid|] == mid
    ensures forall m | j <= m < j + |mid| :: !At(s, m, "__") && !IsLineTerminator(s[m])
  {
    var k := j + |mid|;
    forall m | j <= m < k
      ensures !At(s, m, "__") && !IsLineTerminator(s[m])
    {
      assert s[m] == mid[m - j];
      AtHead(s, m, "__", 0);
      AtHead(s, m, "__", 1);
      if m + 1 < k {
        assert s[m + 1] == mid[m + 1 - j];
        assert !(mid[m - j] == '_' && mid[m - j + 1] == '_');
      } else {
        assert s[m] == mid[|mid| - 1];
      }
    }
  }

  /** A token is its middle between double underscores. */
  lemma TokenShape(n: nat)
    ensures Token(ExpressionPrefix, n) == "__" + ("MATH_EXPRESSION_" + NatToString(n)) + "__"
  {
    var d := NatToString(n);
    assert ExpressionPrefix == "__" + "MATH_EXPRESSION_";
    assert ExpressionPrefix + d == "__" + ("MATH_EXPRESSION_" + d);
  }

  /** What the underline rule makes of a token is that middle, underlined. */
  lemma EatenShape(n: nat)
    ensures Eaten(n) == UnderlineOpen + ("MATH_EXPRESSION_" + NatToString(n)) + "</span>"
  {
    var d := NatToString(n);
    assert UnderlineOpen + "MATH_EXPRESSION_" + d == UnderlineOpen + ("MATH_EXPRESSION_" + d);
  }

  /** Wherever the underline scan meets a token, it replaces the whole token
      by its name, underlined. */
  lemma UnderlineEatsToken(s: string, i: nat, n: nat)
    requires At(s, i, Token(ExpressionPrefix, n))
    ensures Underline(s, i) == Some(Hit(|Token(ExpressionPrefix, n)|, Eaten(n)))
  {
    TokenShape(n);
    EatenShape(n);
    TokenMiddle(NatToString(n));
    UnderlineWrapped(s, i, "MATH_EXPRESSION_" + NatToString(n));
  }

  /** The underline markup holds no underscore at all. */
  lemma UnderlineMarkupClean()
    ensures NoDoubleUnderscore(UnderlineOpen) && UnderlineOpen[|UnderlineOpen| - 1] == '>'
    ensures NoDoubleUnderscore("</span>")
  {
    var a := "<span class=\"border-b-2 ";
    var b := "border-blue-400 dark:border-blue-500\">";
    assert '_' !in a && '_' !in b && '_' !in "</span>";
    NoDoubleUnderscoreAppend(a, b);
    assert UnderlineOpen == a + b;
  }

  /** What the underline rule leaves of a token holds no token: the restoring
      pass finds nothing there, and the math stays lost. */
  lemma EatenTokenStaysEaten(blocks: seq<string>, n: nat)
    ensures Restore(ExpressionPrefix, blocks, Eaten(n)) == Eaten(n)
  {
    var mid := "MATH_EXPRESSION_" + NatToString(n);
    EatenShape(n);
    TokenMiddle(NatToString(n));
    UnderlineMarkupClean();
    NoDoubleUnderscoreAppend(UnderlineOpen, mid);
    NoDoubleUnderscoreAppend(UnderlineOpen + mid, "</span>");
    RestoreWithoutDoubleUnderscore(blocks, Eaten(n));
  }

  /** So a token on its own, underlined and then restored, does not come back
      as its math, whatever the list holds. */
  lemma TokenNotRestored(blocks: seq<string>, n: nat)
    ensures Restore(ExpressionPrefix, blocks, ReplaceAll(Token(ExpressionPrefix, n), Underline)) == Eaten(n)
  {
    var t := Token(ExpressionPrefix, n);
    assert At(t, 0, t);
    UnderlineEatsToken(t, 0, n);
    ReplaceWhole(t, Underline);
    EatenTokenStaysEaten(blocks, n);
  }

  // ---------------------------------------------------------------------
  // No math comes back

  /** A character the restoring pattern reads inside a token. */
  predicate TokenChar(c: char) { c == '_' || IsUpper(c) || IsDigit(c) }

  /** `w` is a whole `__MATH_EXPRESSION_(\d+)__` as the restoring `replace`
      reads it, with any run of digits. */
  predicate IsToken(w: string) {
    && |w| >= 21 && w[..18] == ExpressionPrefix
    && (forall k | 18 <= k < |w| - 2 :: IsDigit(w[k]))
    && w[|w| - 2] == '_' && w[|w| - 1] == '_'
  }

  /** No token starts at `m`. */
  predicate NoTokenAt(x: string, m: nat) {
    forall n | m <= n <= |x| :: !IsToken(x[m..n])
  }

  /** No token anywhere in `x`. */
  predicate TokenFree(x: string) {
    forall m, n | 0 <= m <= n <= |x| :: !IsToken(x[m..n])
  }

  /** A token is made of token characters only. */
  lemma TokenChars(w: string)
    requires IsToken(w)
    ensures forall k | 0 <= k < |w| :: TokenChar(w[k])
  {
    forall k | 0 <= k < 18 ensures TokenChar(w[k]) {
      assert w[k] == ExpressionPrefix[k];
    }
  }

  /** Whatever the restoring rule matches is a token. */
  lemma TokenAtIsToken(value: nat -> string, x: string, j: nat)
    requires HitsAt(x, TokenRule(ExpressionPrefix, value), j)
    ensures IsToken(x[j..j + TokenAt(ExpressionPrefix, value, x, j).value.len])
  {
    assert TokenRule(ExpressionPrefix, value)(x, j) == TokenAt(ExpressionPrefix, value, x, j);
    var d := DigitEnd(x, j + 18);
    assert At(x, j, ExpressionPrefix) && d > j + 18 && At(x, d, "__");
    assert TokenAt(ExpressionPrefix, value, x, j).value.len == d + 2 - j;
    AtHead(x, d, "__", 0);
    AtHead(x, d, "__", 1);
    TokenFrom(x, j, d);
  }

  /** The prefix, a run of digits and `__` make a token. */
  lemma TokenFrom(x: string, j: nat, d: nat)
    requires j + 18 < d && d + 2 <= |x|
    requires x[j..j + 18] == ExpressionPrefix
    requires forall k | j + 18 <= k < d :: IsDigit(x[k])
    requires x[d] == '_' && x[d + 1] == '_'
    ensures IsToken(x[j..d + 2])
  {
    var w := x[j..d + 2];
    assert w[..18] == x[j..j + 18];
    forall k | 18 <= k < |w| - 2 ensures IsDigit(w[k]) {
      assert w[k] == x[j + k];
    }
    assert w[|w| - 2] == x[d] && w[|w| - 1] == x[d + 1];
  }

  /** Text without a token is left alone by the restoring `replace`. */
  lemma RestoreTokenFree(blocks: seq<string>, x: string)
    requires TokenFree(x)
    ensures Restore(ExpressionPrefix, blocks, x) == x
  {
    var r := TokenRule(ExpressionPrefix, BlockLookup(blocks));
    forall j | 0 <= j < |x|
      ensures !HitsAt(x, r, j)
    {
      if HitsAt(x, r, j) {
        TokenAtIsToken(BlockLookup(blocks), x, j);
      }
    }
    ReplaceWithoutHits(x, r, 0);
  }

  /** A token starts with two underscores. */
  lemma NoDoubleUnderscoreTokenFree(x: string)
    requires NoDoubleUnderscore(x)
    ensures TokenFree(x)
  {
  }

  lemma NoUnderscoreTokenFree(x: string)
    requires '_' !in x
    ensures TokenFree(x)
  {
    NoDoubleUnderscoreTokenFree(x);
  }

  /** Two texts without a token, glued where one of them has a character no
      token holds, give a text without a token. */
  lemma TokenFreeAppend(a: string, b: string)
    requires TokenFree(a) && TokenFree(b)
    requires a == [] || b == [] || !TokenChar(a[|a| - 1]) || !TokenChar(b[0])
    ensures TokenFree(a + b)
  {
    var x := a + b;
    forall m, n | 0 <= m <= n <= |x| ensures !IsToken(x[m..n]) {
      if n <= |a| {
        assert x[m..n] == a[m..n];
      } else if m >= |a| {
        RightSlice(a, b, m, n);
      } else {
        assert x[m..n][|a| - 1 - m] == a[|a| - 1] && x[m..n][|a| - m] == b[0];
        if IsToken(x[m..n]) {
          TokenChars(x[m..n]);
        }
      }
    }
  }

  /** A slice of `a + b` lying within `b`. */
  lemma RightSlice(a: string, b: string, m: nat, n: nat)
    requires |a| <= m <= n <= |a| + |b|
    ensures (a + b)[m..n] == b[m - |a|..n - |a|]
  {
    var u, v := (a + b)[m..n], b[m - |a|..n - |a|];
    forall k | 0 <= k < |u| ensures u[k] == v[k] {
      assert u[k] == (a + b)[m + k] == b[m - |a| + k];
    }
  }

  lemma TokenFreeSlice(x: string, a: nat, b: nat)
    requires a <= b <= |x| && TokenFree(x)
    ensures TokenFree(x[a..b])
  {
    var y := x[a..b];
    forall m, n | 0 <= m <= n <= |y| ensures !IsToken(y[m..n]) {
      assert forall k | 0 <= k < n - m :: y[m..n][k] == x[a + m + k];
      assert y[m..n] == x[a + m..a + n];
    }
  }

  /** What a match is replaced by holds no token and starts and ends with a
      character no token holds. */
  predicate CleanHit(s: string, r: Rule, j: nat) {
    HitsAt(s, r, j) ==>
      var o := r(s, j).value.out;
      o != [] && TokenFree(o) && !TokenChar(o[0]) && !TokenChar(o[|o| - 1])
  }

  /** The token characters `t` starts with are the first `n`. */
  predicate TokenLead(t: string, n: nat) {
    n <= |t| && forall k | 0 <= k < n :: TokenChar(t[k])
  }

  /** The token characters `t` starts with are those of `s` from `i`. */
  predicate HeadCopied(s: string, i: nat, t: string) {
    forall n | 0 <= n <= |t| && TokenLead(t, n) :: i + n <= |s| && t[..n] == s[i..i + n]
  }

  /** A clean replacement in front of text without a token. */
  lemma CleanHitStep(s: string, i: nat, o: string, u: string)
    requires o != [] && TokenFree(o) && !TokenChar(o[0]) && !TokenChar(o[|o| - 1])
    requires TokenFree(u) && i <= |s|
    ensures TokenFree(o + u) && HeadCopied(s, i, o + u)
  {
    TokenFreeAppend(o, u);
    assert (o + u)[0] == o[0];
    assert forall n: nat | TokenLead(o + u, n) :: n == 0;
  }

  /** A kept character in front of text without a token, where no token
      starts in the input. */
  lemma KeptStep(s: string, i: nat, u: string)
    requires i < |s| && NoTokenAt(s, i)
    requires TokenFree(u) && HeadCopied(s, i + 1, u)
    ensures TokenFree([s[i]] + u) && HeadCopied(s, i, [s[i]] + u)
  {
    var t := [s[i]] + u;
    forall n: nat | TokenLead(t, n) ensures i + n <= |s| && t[..n] == s[i..i + n] {
      if n > 0 {
        assert TokenLead(u, n - 1) by {
          forall k | 0 <= k < n - 1 ensures TokenChar(u[k]) {
            assert u[k] == t[k + 1];
          }
        }
        assert t[..n] == [s[i]] + u[..n - 1];
        assert s[i..i + n] == [s[i]] + s[i + 1..i + n];
      }
    }
    forall m, n | 0 <= m <= n <= |t| ensures !IsToken(t[m..n]) {
      if m > 0 {
        assert t[m..n] == u[m - 1..n - 1];
      } else if IsToken(t[m..n]) {
        TokenChars(t[..n]);
      }
    }
  }

  /** A replacement whose matches are clean and that leaves no token where
      it keeps a character writes no token; the token characters its output
      starts with are copied from the input. */
  lemma {:induction false} ReplaceTokenFree(s: string, r: Rule, i: nat)
    requires i <= |s|
    requires forall j | i <= j < |s| :: CleanHit(s, r, j)
    requires forall j | i <= j < |s| && !HitsAt(s, r, j) :: NoTokenAt(s, j)
    ensures TokenFree(ReplaceFrom(s, r, i)) && HeadCopied(s, i, ReplaceFrom(s, r, i))
    decreases |s| - i
  {
    if i < |s| {
      if HitsAt(s, r, i) {
        assert CleanHit(s, r, i);
        var e := i + r(s, i).value.len;
        ReplaceTokenFree(s, r, e);
        CleanHitStep(s, i, r(s, i).value.out, ReplaceFrom(s, r, e));
      } else {
        ReplaceTokenFree(s, r, i + 1);
        KeptStep(s, i, ReplaceFrom(s, r, i + 1));
      }
    }
  }

  /** `__mid__` for the digits of a token. */
  lemma TokenSplit(w: string)
    requires IsToken(w)
    ensures var mid := "MATH_EXPRESSION_" + w[18..|w| - 2];
      w == "__" + mid + "__"
  {
    var mid := "MATH_EXPRESSION_" + w[18..|w| - 2];
    assert ExpressionPrefix == "__" + "MATH_EXPRESSION_";
    assert w[..2] == "__" && w[2..18] == "MATH_EXPRESSION_" by {
      assert w[..2] == w[..18][..2] && w[2..18] == w[..18][2..];
    }
    assert w[|w| - 2..] == "__";
    assert w == w[..2] + w[2..18] + w[18..|w| - 2] + w[|w| - 2..];
  }

  /** Where the underline rule keeps a character, no token starts: it would
      have matched the token. */
  lemma UnderlineMissNoToken(s: string, j: nat)
    requires j < |s| && !HitsAt(s, Underline, j)
    ensures NoTokenAt(s, j)
  {
    forall n | j <= n <= |s| ensures !IsToken(s[j..n]) {
      if IsToken(s[j..n]) {
        var w := s[j..n];
        var d := w[18..|w| - 2];
        TokenSplit(w);
        TokenMiddle(d);
        UnderlineWrapped(s, j, "MATH_EXPRESSION_" + d);
      }
    }
  }

  /** What the underline rule writes: the markup around a body that holds
      no double underscore. */
  lemma UnderlineHitClean(s: string, i: nat)
    ensures CleanHit(s, Underline, i)
  {
    if HitsAt(s, Underline, i) {
      var k := LazyUntil(s, i + 2, "__", false).value;
      var body := s[i + 2..k];
      forall q | 0 <= q < |body| - 1 ensures !(body[q] == '_' && body[q + 1] == '_') {
        assert !At(s, i + 2 + q, "__");
        assert s[i + 2 + q..i + 2 + q + 2] == [body[q], body[q + 1]];
      }
      UnderlineMarkupClean();
      NoDoubleUnderscoreTokenFree(UnderlineOpen);
      NoDoubleUnderscoreTokenFree(body);
      NoDoubleUnderscoreTokenFree("</span>");
      TokenFreeAppend(UnderlineOpen, body);
      TokenFreeAppend(UnderlineOpen + body, "</span>");
    }
  }

  /** The underline pass leaves no token, whatever it is given. */
  lemma UnderlineTokenFree(s: string)
    ensures TokenFree(ReplaceAll(s, Underline))
  {
    forall j | 0 <= j < |s| ensures CleanHit(s, Underline, j) {
      UnderlineHitClean(s, j);
    }
    forall j | 0 <= j < |s| && !HitsAt(s, Underline, j) ensures NoTokenAt(s, j) {
      UnderlineMissNoToken(s, j);
    }
    ReplaceTokenFree(s, Underline, 0);
  }

  /** The pieces of a split are slices of the text, so hold no token when it
      holds none. */
  lemma {:induction false} SplitTokenFree(s: string, r: Rule, p: nat, q: nat)
    requires p <= q <= |s| && TokenFree(s)
    ensures forall k | 0 <= k < |SplitFrom(s, r, p, q)| :: TokenFree(SplitFrom(s, r, p, q)[k])
    decreases |s| - q
  {
    if q == |s| {
      TokenFreeSlice(s, p, |s|);
      assert s[p..] == s[p..|s|];
    } else if HitsAt(s, r, q) {
      var e := q + r(s, q).value.len;
      SplitTokenFree(s, r, e, e);
      TokenFreeSlice(s, p, q);
    } else {
      SplitTokenFree(s, r, p, q + 1);
    }
  }

  /** Wrapping a block in `<p>` adds no token. */
  lemma WrapTokenFree(p: string)
    requires TokenFree(p)
    ensures TokenFree(Wrap(p))
  {
    var t := Trim(p);
    if !IsTagged(t) {
      var a := SpaceEnd(p, 0);
      TokenFreeSlice(p, a, a + |t|);
      NoUnderscoreTokenFree("<p>");
      NoUnderscoreTokenFree("</p>");
      TokenFreeAppend("<p>", t);
      TokenFreeAppend("<p>" + t, "</p>");
    }
  }

  /** Joining on blank lines adds no token. */
  lemma {:induction false} JoinTokenFree(ps: seq<string>)
    requires forall k | 0 <= k < |ps| :: TokenFree(ps[k])
    ensures TokenFree(Join(ps, "\n\n"))
  {
    if |ps| >= 2 {
      var rest := Join(ps[1..], "\n\n");
      JoinTokenFree(ps[1..]);
      NoUnderscoreTokenFree("\n\n");
      TokenFreeAppend(ps[0], "\n\n");
      assert (ps[0] + "\n\n")[|ps[0]| + 1] == '\n';
      TokenFreeAppend(ps[0] + "\n\n", rest);
    }
  }

  /** The paragraph pass adds no token. */
  lemma ParagraphsTokenFree(s: string)
    requires TokenFree(s)
    ensures TokenFree(Paragraphs(s))
  {
    var bs := Blocks(s);
    SplitTokenFree(s, ParagraphBreak, 0, 0);
    forall k | 0 <= k < |bs| ensures TokenFree(WrapAll(bs)[k]) {
      WrapTokenFree(bs[k]);
    }
    JoinTokenFree(WrapAll(bs));
  }

  /** The markup of the note template holds no underscore. */
  lemma NoteHeadClean(color: string, icon: string, title: string)
    requires '_' !in color && '_' !in icon && '_' !in title
    ensures '_' !in NoteHead(color, icon, title) && '_' !in NoteTail
  {
    NoteMarkupClean1();
    NoteMarkupClean2();
    NoteMarkupClean3();
    NoteMarkupClean4();
    NoteMarkupClean5();
    NoteMarkupClean6();
    NoteMarkupClean7();
    NoteMarkupClean8();
  }

  lemma NoteMarkupClean1()
    ensures '_' !in "<div class=\"my-4 p-4 rounded-lg " && '_' !in " overflow-hidden\">\n"
  {
  }

  lemma NoteMarkupClean2()
    ensures '_' !in "        <div class=\"flex items-center gap-2 "
  {
  }

  lemma NoteMarkupClean3()
    ensures '_' !in "font-medium text-gray-800 " && '_' !in "dark:text-gray-200 mb-2\">\n"
  {
  }

  lemma NoteMarkupClean4()
    ensures '_' !in "          <span class=\"text-xl\">" && '_' !in "</span>\n"
  {
  }

  lemma NoteMarkupClean5()
    ensures '_' !in "          <span>" && '_' !in "        </div>\n"
  {
  }

  lemma NoteMarkupClean6()
    ensures '_' !in "        <div class=\"text-gray-700 "
  {
  }

  lemma NoteMarkupClean7()
    ensures '_' !in "dark:text-gray-300 prose-content\">\n" && '_' !in "          "
  {
  }

  lemma NoteMarkupClean8()
    ensures '_' !in "\n" && '_' !in "      </div>"
  {
  }

  /** The note template starts with markup and ends its head in a space. */
  lemma NoteHeadEnds(color: string, icon: string, title: string)
    ensures var head := NoteHead(color, icon, title);
      head != [] && head[0] == '<' && head[|head| - 1] == ' '
    ensures NoteTail != [] && NoteTail[0] == '\n' && NoteTail[|NoteTail| - 1] == '>'
  {
    var open := "<div class=\"my-4 p-4 rounded-lg ";
    assert open[0] == '<';
    assert NoteHead(color, icon, title)[0] == open[0];
  }

  /** Text without a token between markup without an underscore, starting
      with `<` and ending with a space before it and with `>` after it. */
  lemma FramedTokenFree(head: string, t: string, tail: string)
    requires '_' !in head && head != [] && head[0] == '<' && head[|head| - 1] == ' '
    requires '_' !in tail && tail != [] && tail[0] == '\n' && tail[|tail| - 1] == '>'
    requires TokenFree(t)
    ensures var o := head + t + tail;
      o != [] && TokenFree(o) && !TokenChar(o[0]) && !TokenChar(o[|o| - 1])
  {
    NoUnderscoreTokenFree(head);
    NoUnderscoreTokenFree(tail);
    TokenFreeAppend(head, t);
    assert (head + t)[0] == '<';
    TokenFreeAppend(head + t, tail);
  }

  /** The note template around a body without a token holds none, and
      starts and ends with markup. */
  lemma NoteHtmlTokenFree(color: string, icon: string, title: string, body: string)
    requires '_' !in color && '_' !in icon && '_' !in title && TokenFree(body)
    ensures var o := NoteHtml(color, icon, title, body);
      o != [] && TokenFree(o) && !TokenChar(o[0]) && !TokenChar(o[|o| - 1])
  {
    NoteHeadClean(color, icon, title);
    NoteHeadEnds(color, icon, title);
    TrimFramedTokenFree(NoteHead(color, icon, title), body, NoteTail);
  }

  /** The same, with the body trimmed first. */
  lemma TrimFramedTokenFree(head: string, body: string, tail: string)
    requires '_' !in head && head != [] && head[0] == '<' && head[|head| - 1] == ' '
    requires '_' !in tail && tail != [] && tail[0] == '\n' && tail[|tail| - 1] == '>'
    requires TokenFree(body)
    ensures var o := head + Trim(body) + tail;
      o != [] && TokenFree(o) && !TokenChar(o[0]) && !TokenChar(o[|o| - 1])
  {
    var t := Trim(body);
    var a := SpaceEnd(body, 0);
    TokenFreeSlice(body, a, a + |t|);
    FramedTokenFree(head, t, tail);
  }

  /** The colours, icons and titles hold no underscore. */
  lemma NoteTextsClean(k: NoteKind)
    ensures '_' !in NoteColor(k) && '_' !in MojibakeIcon(k) && '_' !in NoteTitle(k)
  {
    NoteColorClean(k);
    NoteTitleClean(k);
  }

  lemma NoteColorClean(k: NoteKind)
    ensures '_' !in NoteColor(k)
  {
    match k
    case Important => assert '_' !in "bg-purple-50 dark:bg-purple-900/30";
    case Tip => assert '_' !in "bg-blue-50 dark:bg-blue-900/30";
    case Example => assert '_' !in "bg-green-50 dark:bg-green-900/30";
    case Steps => assert '_' !in "bg-indigo-50 dark:bg-indigo-900/30";
  }

  lemma NoteTitleClean(k: NoteKind)
    ensures '_' !in NoteTitle(k)
  {
    match k
    case Important => assert '_' !in "Key Concept";
    case Tip => assert '_' !in "Helpful Tip";
    case Example => assert '_' !in "Example";
    case Steps => assert '_' !in "Step-by-Step";
  }

  /** The note pass adds no token. */
  lemma NotesTokenFree(s: string)
    requires TokenFree(s)
    ensures TokenFree(ReplaceAll(s, MojibakeNote))
  {
    forall j | 0 <= j < |s| ensures CleanHit(s, MojibakeNote, j) {
      if HitsAt(s, MojibakeNote, j) {
        var (k, b, e) := NoteSpan(s, j).value;
        TokenFreeSlice(s, b, e);
        NoteTextsClean(k);
        NoteHtmlTokenFree(NoteColor(k), MojibakeIcon(k), NoteTitle(k), s[b..e]);
      }
    }
    forall j | 0 <= j < |s| && !HitsAt(s, MojibakeNote, j) ensures NoTokenAt(s, j) {
    }
    ReplaceTokenFree(s, MojibakeNote, 0);
  }

  /** The markdown rules of this copy leave no token standing: the underline
      pass eats every one it meets, and the paragraph and note passes make
      none. */
  lemma LayoutTokenFree(t: string)
    ensures TokenFree(Layout(t))
  {
    var u := ReplaceAll(Structure(t), Underline);
    UnderlineTokenFree(Structure(t));
    ParagraphsTokenFree(u);
    NotesTokenFree(Paragraphs(u));
  }

  /** So the restoring `replace` finds nothing to put back, whatever the
      text and the list of math: the reply is the same as with no math
      protected at all. */
  lemma NoMathRestored(t: string, blocks: seq<string>)
    ensures Restore(ExpressionPrefix, blocks, Layout(t)) == Layout(t)
    ensures Finish(t, blocks) == Finish(t, [])
  {
    LayoutTokenFree(t);
    RestoreTokenFree(blocks, Layout(t));
    RestoreTokenFree([], Layout(t));
  }
}
