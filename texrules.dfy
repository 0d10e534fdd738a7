/**
 * The LaTeX repairs that the Lambda client's `fixLatexMath` and the math
 * service's `cleanTeXString` both make, as scanner rules: a backslash put in
 * front of a known name, braces put around a one-character script, and the
 * test that tells a currency amount between dollar signs from math.
 */
module TexRules {
  import opened Wrappers
  import opened Text
  import opened Scan
  import opened Patterns

  /** `([^\\])(n1|n2|…)([^a-zA-Z])` replaced by `$1\$2$3`: a name between a
      character other than a backslash and a character other than a letter
      gets a backslash, inserted after the first character of the match. */
  function BackslashName(names: seq<string>, s: string, i: nat): (h: Option<Hit>)
    ensures h.Some? ==> (i + h.value.len <= |s| && 2 <= h.value.len && s[i] != '\\'
                         && s[i + 1..i + h.value.len - 1] in names
                         && !IsLetter(s[i + h.value.len - 1]))
    ensures h.Some? ==> h.value.out == s[i..i + 1] + "\\" + s[i + 1..i + h.value.len]
  {
    if i < |s| && s[i] != '\\' then
      match NameBeforeNonLetter(s, i + 1, names)
      case Some(n) =>
        var e := i + 1 + |n|;
        assert s[i + 1..e + 1] == n + [s[e]];
        Some(Hit(|n| + 2, [s[i]] + "\\" + n + [s[e]]))
      case None => None
    else None
  }

  /** `(n1|n2|…)` at `j`, compared exactly or, under the `i` flag, folded. */
  function FirstName(s: string, j: nat, names: seq<string>, folded: bool): Option<string> {
    if folded then FirstNameFolded(s, j, names) else FirstNameAt(s, j, names)
  }

  /** `([^\\])(n1|n2|…)` replaced by `$1\$2`: with nothing required after the
      name, the backslash goes in even where the name is only the start of a
      longer word, or the tail of an escaped one. */
  function BackslashPrefix(names: seq<string>, folded: bool, s: string, i: nat): (h: Option<Hit>)
    ensures h.Some? <==> i < |s| && s[i] != '\\' && FirstName(s, i + 1, names, folded).Some?
    ensures h.Some? ==> var n := FirstName(s, i + 1, names, folded).value;
      && h.value.len == |n| + 1 && i + h.value.len <= |s|
      && h.value.out == s[i..i + 1] + "\\" + s[i + 1..i + h.value.len]
  {
    if i < |s| && s[i] != '\\' then
      match FirstName(s, i + 1, names, folded)
      case Some(n) => Some(Hit(|n| + 1, [s[i]] + "\\" + s[i + 1..i + 1 + |n|]))
      case None => None
    else None
  }

  /** `([^\\])cmd\{` replaced by `$1\cmd{`. */
  function BackslashCommand(cmd: string, s: string, i: nat): (h: Option<Hit>)
    ensures h.Some? ==> (i < |s| && s[i] != '\\' && h.value.len == |cmd| + 2
                         && At(s, i + 1, cmd + "{"))
    ensures h.Some? ==> h.value.out == s[i..i + 1] + "\\" + s[i + 1..i + h.value.len]
  {
    if i < |s| && s[i] != '\\' && At(s, i + 1, cmd + "{") then
      Some(Hit(|cmd| + 2, [s[i]] + "\\" + cmd + "{"))
    else None
  }

  predicate IsScriptMark(c: char) { c == '_' || c == '^' }

  /** `([_^])([0-9a-zA-Z])` replaced by `$1{$2}`. */
  function ScriptBraces(s: string, i: nat): (h: Option<Hit>)
    ensures h.Some? <==> (i + 1 < |s| && IsScriptMark(s[i]) && IsAlnum(s[i + 1]))
    ensures h.Some? ==> h.value == Hit(2, [s[i], '{', s[i + 1], '}'])
  {
    if i + 1 < |s| && IsScriptMark(s[i]) && IsAlnum(s[i + 1]) then
      Some(Hit(2, [s[i], '{', s[i + 1], '}']))
    else None
  }

  /** A `_` or `^` directly before an ASCII letter or digit. */
  predicate BareScript(a: char, b: char) { IsScriptMark(a) && IsAlnum(b) }

  predicate NoBareScript(t: string) { PairFree(t, BareScript) }

  /** After the brace pass no `_` or `^` is directly followed by a letter or
      digit, and the output starts where the input did. */
  lemma ScriptBracesLeaveNoBareScript(s: string, i: nat)
    requires i <= |s|
    ensures NoBareScript(ReplaceFrom(s, ScriptBraces, i))
    ensures i < |s| ==> |ReplaceFrom(s, ScriptBraces, i)| > 0 && ReplaceFrom(s, ScriptBraces, i)[0] == s[i]
  {
    forall j | i <= j < |s| && HitsAt(s, ScriptBraces, j)
      ensures var o := ScriptBraces(s, j).value.out;
        o != [] && o[0] == s[j] && PairFree(o, BareScript) && FreeAfter(o[|o| - 1], BareScript)
    {
    }
    ReplaceBreaksPairs(s, ScriptBraces, i, BareScript);
  }

  /** `^\s*\d+([,.]\d+)?\s*$`: a bare amount such as ` 5 ` or `1,000`. */
  predicate IsAmount(m: string) {
    var t := Trim(m);
    var d := DigitEnd(t, 0);
    && d > 0
    && (d == |t| || ((t[d] == ',' || t[d] == '.') && d + 1 < |t| && DigitEnd(t, d + 1) == |t|))
  }
}
