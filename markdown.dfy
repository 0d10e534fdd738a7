/**
 * The markdown rules that `processContent` of the Lambda service and of the
 * API service share word for word: headings, list items and their (broken)
 * `<ul>` merging, bold, italic and highlighted text, the paragraph pass, note
 * blocks and the final clean-up. Each regular expression is a rule for the
 * scanner of module `Scan`.
 */
module Markdown {
  import opened Wrappers
  import opened Text
  import opened Scan
  import opened Patterns
  import opened Newlines

  // ---------------------------------------------------------------------
  // Small rule shapes

  /** A fixed string replaced by another one. */
  function Literal(s: string, i: nat, pat: string, rep: string): (h: Option<Hit>)
    ensures h.Some? <==> At(s, i, pat)
    ensures h.Some? ==> h.value == Hit(|pat|, rep)
  {
    if At(s, i, pat) then Some(Hit(|pat|, rep)) else None
  }

  /** `open(.*?)close` replaced by `before + body + after`: the body is the
      shortest run on one line that the closing string follows. */
  function Delimited(s: string, i: nat, open: string, close: string, before: string, after: string): (h: Option<Hit>)
    requires |open| > 0 && |close| > 0
    ensures h.Some? ==> At(s, i, open) && i + |open| <= |s|
    ensures h.Some? ==> var k := i + h.value.len - |close|;
      && i + |open| <= k && i + h.value.len <= |s| && At(s, k, close)
      && NoLineTerminator(s[i + |open|..k])
      && h.value.out == before + s[i + |open|..k] + after
    ensures At(s, i, open) && LazyUntil(s, i + |open|, close, false).Some? ==> h.Some?
  {
    if At(s, i, open) then
      match LazyUntil(s, i + |open|, close, false)
      case Some(k) => Some(Hit(k + |close| - i, before + s[i + |open|..k] + after))
      case None => None
    else None
  }

  // ---------------------------------------------------------------------
  // Leftover placeholders

  /** `MATH_PLACEHOLDER_\d+`, replaced by `x`. */
  function LoosePlaceholder(s: string, i: nat): (h: Option<Hit>)
    ensures h.Some? <==> At(s, i, "MATH_PLACEHOLDER_") && i + 17 < |s| && IsDigit(s[i + 17])
    ensures h.Some? ==> h.value == Hit(DigitEnd(s, i + 17) - i, "x")
  {
    if At(s, i, "MATH_PLACEHOLDER_") && i + 17 < |s| && IsDigit(s[i + 17]) then
      Some(Hit(DigitEnd(s, i + 17) - i, "x"))
    else None
  }

  // ---------------------------------------------------------------------
  // Headings

  predicate IsHash(c: char) { c == '#' }

  /** The heading classes: entry 1 for level one, entry 2 for level two,
      entry 0 for every deeper level. */
  const HeadingClasses: seq<string> :=
    ["text-lg font-semibold", "text-2xl font-bold", "text-xl font-semibold"]

  /** The class of a heading of the given level. */
  function HeadingClass(level: nat): (c: string)
    ensures level == 1 ==> c == "text-2xl font-bold"
    ensures level == 2 ==> c == "text-xl font-semibold"
    ensures level >= 3 ==> c == "text-lg font-semibold"
  {
    HeadingClasses[if level == 1 || level == 2 then level else 0]
  }

  const HeadingTail: string := " text-gray-900 " + "dark:text-white my-3\">"

  function HeadingHtml(level: nat, text: string): string {
    var n := NatToString(level);
    "<h" + n + " class=\"" + HeadingClass(level) + HeadingTail + Trim(text) + "</h" + n + ">"
  }

  /** `^(#+)\s+(.*)$` with the `m` flag: at the start of a line, all the `#`s,
      white space (which may run over line ends), and the rest of the line. */
  function Heading(s: string, i: nat): (h: Option<Hit>)
    ensures h.Some? ==> LineStart(s, i) && i < |s| && s[i] == '#'
    ensures h.Some? ==>
      var e := RunEnd(s, i, IsHash);
      var w := SpaceEnd(s, e);
      && e < w && i + h.value.len == LineEnd(s, w)
    ensures LineStart(s, i) && i < |s| && s[i] == '#' && SpaceEnd(s, RunEnd(s, i, IsHash)) > RunEnd(s, i, IsHash)
            ==> h.Some?
  {
    if LineStart(s, i) && i < |s| && s[i] == '#' then
      var e := RunEnd(s, i, IsHash);
      var w := SpaceEnd(s, e);
      if e < w then
        var t := LineEnd(s, w);
        Some(Hit(t - i, HeadingHtml(e - i, s[w..t])))
      else None
    else None
  }

  /** A heading's output wraps the trimmed rest of its line in a tag whose
      level is the number of `#`s. */
  lemma HeadingOutput(s: string, i: nat)
    requires Heading(s, i).Some?
    ensures
      var e := RunEnd(s, i, IsHash);
      var w := SpaceEnd(s, e);
      Heading(s, i).value.out == HeadingHtml(e - i, s[w..LineEnd(s, w)])
  {
  }

  // ---------------------------------------------------------------------
  // Lists

  /** `^(\s*)([-*])\s+(.*)$` with the `m` flag, replaced by `<li>$3</li>`. */
  function Bullet(s: string, i: nat): (h: Option<Hit>)
    ensures h.Some? ==> LineStart(s, i)
    ensures h.Some? ==>
      var a := SpaceEnd(s, i);
      && a < |s| && (s[a] == '-' || s[a] == '*')
      && var b := SpaceEnd(s, a + 1);
      && a + 1 < b && i + h.value.len == LineEnd(s, b)
      && h.value.out == "<li>" + s[b..LineEnd(s, b)] + "</li>"
  {
    if LineStart(s, i) then
      var a := SpaceEnd(s, i);
      if a < |s| && (s[a] == '-' || s[a] == '*') then
        var b := SpaceEnd(s, a + 1);
        if a + 1 < b then
          var e := LineEnd(s, b);
          Some(Hit(e - i, "<li>" + s[b..e] + "</li>"))
        else None
      else None
    else None
  }

  /** `^(\s*)(\d+\.)\s+(.*)$` with the `m` flag, replaced by `<li>$3</li>`. */
  function Numbered(s: string, i: nat): (h: Option<Hit>)
    ensures h.Some? ==> LineStart(s, i)
    ensures h.Some? ==>
      var a := SpaceEnd(s, i);
      var d := DigitEnd(s, a);
      && a < d < |s| && s[d] == '.'
      && var b := SpaceEnd(s, d + 1);
      && d + 1 < b && i + h.value.len == LineEnd(s, b)
      && h.value.out == "<li>" + s[b..LineEnd(s, b)] + "</li>"
  {
    if LineStart(s, i) then
      var a := SpaceEnd(s, i);
      var d := DigitEnd(s, a);
      if a < d < |s| && s[d] == '.' then
        var b := SpaceEnd(s, d + 1);
        if d + 1 < b then
          var e := LineEnd(s, b);
          Some(Hit(e - i, "<li>" + s[b..e] + "</li>"))
        else None
      else None
    else None
  }

  /** `<\/li>(\s*)<li>` at `k`. */
  predicate CloseThenItem(s: string, k: nat) {
    At(s, k, "</li>") && At(s, SpaceEnd(s, k + 5), "<li>")
  }

  /** Where the lazy `.*?<\/li>` of an item ends so that `\s*<li>` follows:
      the first such `</li>` on the line from `j`. */
  function ItemCloseBeforeItem(s: string, j: nat): (k: Option<nat>)
    requires j <= |s|
    ensures k.Some? ==> j <= k.value && CloseThenItem(s, k.value)
    ensures k.Some? ==> forall x | j <= x < k.value :: !IsLineTerminator(s[x])
    decreases |s| - j
  {
    if CloseThenItem(s, j) then Some(j)
    else if j == |s| || IsLineTerminator(s[j]) then None
    else ItemCloseBeforeItem(s, j + 1)
  }

  /** `(<li>.*?<\/li>)(\s*)(<li>)`, replaced by `$1$2</ul>\n<ul>$3`. */
  function ItemPair(s: string, i: nat): (h: Option<Hit>)
    ensures h.Some? ==> At(s, i, "<li>")
    ensures h.Some? ==> exists k | i + 4 <= k && At(s, k, "</li>") ::
      var w := SpaceEnd(s, k + 5);
      && At(s, w, "<li>") && i + h.value.len == w + 4
      && h.value.out == s[i..w] + "</ul>\n<ul>" + "<li>"
  {
    if At(s, i, "<li>") then
      match ItemCloseBeforeItem(s, i + 4)
      case Some(k) =>
        var w := SpaceEnd(s, k + 5);
        Some(Hit(w + 4 - i, s[i..w] + "</ul>\n<ul>" + "<li>"))
      case None => None
    else None
  }

  /** `^<li>` with the `m` flag, replaced by `<ul><li>`. */
  function ItemOpensList(s: string, i: nat): (h: Option<Hit>)
    ensures h.Some? <==> LineStart(s, i) && At(s, i, "<li>")
    ensures h.Some? ==> h.value == Hit(4, "<ul><li>")
  {
    if LineStart(s, i) then Literal(s, i, "<li>", "<ul><li>") else None
  }

  /** `<\/li>$` with the `m` flag, replaced by `</li></ul>`. */
  function ItemClosesList(s: string, i: nat): (h: Option<Hit>)
    ensures h.Some? <==> At(s, i, "</li>") && (i + 5 == |s| || IsLineTerminator(s[i + 5]))
    ensures h.Some? ==> h.value == Hit(5, "</li></ul>")
  {
    if At(s, i, "</li>") && (i + 5 == |s| || IsLineTerminator(s[i + 5])) then Some(Hit(5, "</li></ul>"))
    else None
  }

  /** `<\/ul>\s*<ul>`, removed. */
  function ListGap(s: string, i: nat): (h: Option<Hit>)
    ensures h.Some? <==> At(s, i, "</ul>") && At(s, SpaceEnd(s, i + 5), "<ul>")
    ensures h.Some? ==> h.value == Hit(SpaceEnd(s, i + 5) + 4 - i, [])
  {
    if At(s, i, "</ul>") && At(s, SpaceEnd(s, i + 5), "<ul>") then Some(Hit(SpaceEnd(s, i + 5) + 4 - i, []))
    else None
  }

  /** List items, then the four `<ul>` rewrites. */
  function Lists(s: string): string {
    var items := ReplaceAll(ReplaceAll(s, Bullet), Numbered);
    ReplaceAll(ReplaceAll(ReplaceAll(ReplaceAll(items, ItemPair), ItemOpensList), ItemClosesList), ListGap)
  }

  /** The characters of the tags the list passes write. */
  const ListTagChars: string := "<>/uli\n"

  /** A character of the list passes' output: from the input or from a tag. */
  predicate FromInputOrTag(s: string, c: char) {
    c in s || c in ListTagChars
  }

  lemma PassKeeps(t: string, r: Rule, s: string)
    requires forall c | c in t :: FromInputOrTag(s, c)
    requires forall j | 0 <= j < |t| && HitsAt(t, r, j) :: forall c | c in r(t, j).value.out :: FromInputOrTag(s, c)
    ensures forall c | c in ReplaceAll(t, r) :: FromInputOrTag(s, c)
  {
    var ok := c => FromInputOrTag(s, c);
    forall j | 0 <= j < |t| && !HitsAt(t, r, j) ensures ok(t[j]) {
      assert t[j] in t;
    }
    ReplaceKeepsCharProperty(t, r, 0, ok);
  }

  /** A slice of `t` wrapped in tags. */
  lemma WrappedChars(t: string, s: string, open: string, b: nat, e: nat, close: string)
    requires b <= e <= |t|
    requires forall c | c in t :: FromInputOrTag(s, c)
    requires forall c | c in open + close :: c in ListTagChars
    ensures forall c | c in open + t[b..e] + close :: FromInputOrTag(s, c)
  {
    forall c | c in open + t[b..e] + close ensures FromInputOrTag(s, c) {
      if c in t[b..e] {
        var k :| b <= k < e && t[k] == c;
        assert t[k] in t;
      } else {
        assert c in open + close;
      }
    }
  }

  lemma BulletChars(t: string, s: string)
    requires forall c | c in t :: FromInputOrTag(s, c)
    ensures forall j | 0 <= j < |t| && HitsAt(t, Bullet, j) :: forall c | c in Bullet(t, j).value.out :: FromInputOrTag(s, c)
  {
    forall j | 0 <= j < |t| && HitsAt(t, Bullet, j) ensures forall c | c in Bullet(t, j).value.out :: FromInputOrTag(s, c) {
      var b := SpaceEnd(t, SpaceEnd(t, j) + 1);
      WrappedChars(t, s, "<li>", b, LineEnd(t, b), "</li>");
    }
  }

  lemma NumberedChars(t: string, s: string)
    requires forall c | c in t :: FromInputOrTag(s, c)
    ensures forall j | 0 <= j < |t| && HitsAt(t, Numbered, j) :: forall c | c in Numbered(t, j).value.out :: FromInputOrTag(s, c)
  {
    forall j | 0 <= j < |t| && HitsAt(t, Numbered, j) ensures forall c | c in Numbered(t, j).value.out :: FromInputOrTag(s, c) {
      var b := SpaceEnd(t, DigitEnd(t, SpaceEnd(t, j)) + 1);
      WrappedChars(t, s, "<li>", b, LineEnd(t, b), "</li>");
    }
  }

  lemma ItemPairChars(t: string, s: string)
    requires forall c | c in t :: FromInputOrTag(s, c)
    ensures forall j | 0 <= j < |t| && HitsAt(t, ItemPair, j) :: forall c | c in ItemPair(t, j).value.out :: FromInputOrTag(s, c)
  {
    forall j | 0 <= j < |t| && HitsAt(t, ItemPair, j) ensures forall c | c in ItemPair(t, j).value.out :: FromInputOrTag(s, c) {
      var w := ItemPairOutput(t, j);
      WrappedChars(t, s, "", j, w, "</ul>\n<ul>" + "<li>");
    }
  }

  /** Where the copied part of an item pair ends. */
  lemma ItemPairOutput(t: string, j: nat) returns (w: nat)
    requires j < |t| && HitsAt(t, ItemPair, j)
    ensures j <= w <= |t| && ItemPair(t, j).value.out == "" + t[j..w] + ("</ul>\n<ul>" + "<li>")
  {
    var k := ItemCloseBeforeItem(t, j + 4).value;
    w := SpaceEnd(t, k + 5);
  }

  lemma ListsAddsOnlyTagChars(s: string)
    ensures forall c | c in Lists(s) :: c in s || c in ListTagChars
  {
    var t1 := ReplaceAll(s, Bullet);
    BulletChars(s, s);
    PassKeeps(s, Bullet, s);
    var t2 := ReplaceAll(t1, Numbered);
    NumberedChars(t1, s);
    PassKeeps(t1, Numbered, s);
    var t3 := ReplaceAll(t2, ItemPair);
    ItemPairChars(t2, s);
    PassKeeps(t2, ItemPair, s);
    var t4 := ReplaceAll(t3, ItemOpensList);
    PassKeeps(t3, ItemOpensList, s);
    var t5 := ReplaceAll(t4, ItemClosesList);
    PassKeeps(t4, ItemClosesList, s);
    PassKeeps(t5, ListGap, s);
  }

  /** The list passes never write an ordered list: `<ol>` appears in the
      output only when the input already holds an `o`. */
  lemma ListsWritesNoOrderedList(s: string)
    requires 'o' !in s
    ensures !Contains(Lists(s), "<ol>")
  {
    ListsAddsOnlyTagChars(s);
    forall i | 0 <= i <= |Lists(s)| ensures !At(Lists(s), i, "<ol>") {
      AtHead(Lists(s), i, "<ol>", 1);
      if i + 1 < |Lists(s)| {
        assert Lists(s)[i + 1] in Lists(s);
      }
    }
  }

  // ---------------------------------------------------------------------
  // Lists on two consecutive bullet items

  /** The text after each of the six list passes, for `- a` followed by
      `- b` on the next line. */
  const ItemsSource: string := "- a\n- b"
  const ItemsTagged: string := "<li>a</li>\n<li>b</li>"
  const ItemsPaired: string := "<li>a</li>\n</ul>\n<ul><li>b</li>"
  const ItemsOpened: string := "<ul><li>a</li>\n</ul>\n<ul><li>b</li>"
  const ItemsClosed: string := "<ul><li>a</li></ul>\n</ul>\n<ul><li>b</li></ul>"
  const ItemsJoined: string := "<ul><li>a</li></ul>\n<li>b</li></ul>"

  lemma TwoBulletMisses()
    ensures !HitsAt(ItemsSource, Bullet, 3)
  {
  }

  lemma TwoBulletHits()
    ensures Bullet(ItemsSource, 0) == Some(Hit(3, "<li>a</li>"))
    ensures Bullet(ItemsSource, 4) == Some(Hit(3, "<li>b</li>"))
  {
    assert ItemsSource[2..3] == "a" && ItemsSource[6..7] == "b";
    assert SpaceEnd(ItemsSource, 0) == 0 && SpaceEnd(ItemsSource, 1) == 2 && LineEnd(ItemsSource, 2) == 3;
    assert SpaceEnd(ItemsSource, 4) == 4 && SpaceEnd(ItemsSource, 5) == 6 && LineEnd(ItemsSource, 6) == 7;
    assert "<li>" + "a" + "</li>" == "<li>a</li>" && "<li>" + "b" + "</li>" == "<li>b</li>";
  }

  lemma TwoBulletIn()
    ensures ItemsSource == "" + "- a" + "\n" + "- b" + ""
  {
  }

  lemma TwoBulletOut()
    ensures ItemsTagged == "" + "<li>a</li>" + "\n" + "<li>b</li>" + ""
  {
  }

  lemma TwoBulletPass()
    ensures ReplaceAll(ItemsSource, Bullet) == ItemsTagged
  {
    TwoBulletMisses();
    TwoBulletHits();
    TwoBulletIn();
    TwoBulletOut();
    ReplaceTwoHits("", "- a", "\n", "- b", "", Bullet, "<li>a</li>", "<li>b</li>");
  }

  lemma TwoNumberedPass()
    ensures ReplaceAll(ItemsTagged, Numbered) == ItemsTagged
  {
    forall j | 0 <= j < |ItemsTagged| ensures !HitsAt(ItemsTagged, Numbered, j) {
      var a := SpaceEnd(ItemsTagged, j);
      if a < |ItemsTagged| {
        assert !IsDigit(ItemsTagged[a]);
      }
    }
    ReplaceWithoutHits(ItemsTagged, Numbered, 0);
  }

  lemma TwoPairMisses()
    ensures forall j | 15 <= j < |ItemsTagged| :: !HitsAt(ItemsTagged, ItemPair, j)
  {
    forall j | 15 <= j < |ItemsTagged| ensures !HitsAt(ItemsTagged, ItemPair, j) {
      AtHead(ItemsTagged, j, "<li>", 0);
      AtHead(ItemsTagged, j, "<li>", 1);
    }
  }

  lemma TwoPairClose()
    ensures ItemCloseBeforeItem(ItemsTagged, 4) == Some(5)
  {
    AtChars(ItemsTagged, 5, "</li>");
    AtChars(ItemsTagged, 11, "<li>");
    AtHead(ItemsTagged, 4, "</li>", 0);
    assert !CloseThenItem(ItemsTagged, 4);
    TwoPairSpace();
    assert CloseThenItem(ItemsTagged, 5);
  }

  lemma TwoPairSpace()
    ensures SpaceEnd(ItemsTagged, 10) == 11
  {
  }

  lemma TwoPairHit()
    ensures ItemPair(ItemsTagged, 0) == Some(Hit(15, "<li>a</li>\n</ul>\n<ul><li>"))
  {
    AtChars(ItemsTagged, 0, "<li>");
    TwoPairClose();
    TwoPairSpace();
    TwoPairOutput();
  }

  lemma TwoPairOutput()
    ensures ItemsTagged[0..11] + "</ul>\n<ul>" + "<li>" == "<li>a</li>\n</ul>\n<ul><li>"
  {
    assert ItemsTagged[0..11] == "<li>a</li>\n";
  }

  lemma TwoPairIn()
    ensures ItemsTagged == "" + "<li>a</li>\n<li>" + "b</li>"
  {
  }

  lemma TwoPairOut()
    ensures ItemsPaired == "" + "<li>a</li>\n</ul>\n<ul><li>" + "b</li>"
  {
  }

  lemma TwoPairPass()
    ensures ReplaceAll(ItemsTagged, ItemPair) == ItemsPaired
  {
    TwoPairMisses();
    TwoPairHit();
    TwoPairIn();
    TwoPairOut();
    ReplaceOneHit("", "<li>a</li>\n<li>", "b</li>", ItemPair, "<li>a</li>\n</ul>\n<ul><li>");
  }

  lemma TwoOpensMisses()
    ensures forall j | 4 <= j < |ItemsPaired| :: !HitsAt(ItemsPaired, ItemOpensList, j)
  {
    forall j | 4 <= j < |ItemsPaired| ensures !HitsAt(ItemsPaired, ItemOpensList, j) {
      AtHead(ItemsPaired, j, "<li>", 0);
      AtHead(ItemsPaired, j, "<li>", 1);
    }
  }

  lemma TwoOpensIn()
    ensures ItemsPaired == "" + "<li>" + "a</li>\n</ul>\n<ul><li>b</li>"
  {
  }

  lemma TwoOpensOut()
    ensures ItemsOpened == "" + "<ul><li>" + "a</li>\n</ul>\n<ul><li>b</li>"
  {
  }

  lemma TwoOpensPass()
    ensures ReplaceAll(ItemsPaired, ItemOpensList) == ItemsOpened
  {
    TwoOpensMisses();
    AtChars(ItemsPaired, 0, "<li>");
    TwoOpensIn();
    TwoOpensOut();
    ReplaceOneHit("", "<li>", "a</li>\n</ul>\n<ul><li>b</li>", ItemOpensList, "<ul><li>");
  }

  lemma TwoClosesMisses()
    ensures forall j | 0 <= j < |ItemsOpened| && (j < 9 || 14 <= j < 30) :: !HitsAt(ItemsOpened, ItemClosesList, j)
  {
    forall j | 0 <= j < |ItemsOpened| && (j < 9 || 14 <= j < 30) ensures !HitsAt(ItemsOpened, ItemClosesList, j) {
      AtHead(ItemsOpened, j, "</li>", 0);
      AtHead(ItemsOpened, j, "</li>", 1);
      AtHead(ItemsOpened, j, "</li>", 2);
    }
  }

  lemma TwoClosesHits()
    ensures ItemClosesList(ItemsOpened, 9) == Some(Hit(5, "</li></ul>"))
    ensures ItemClosesList(ItemsOpened, 30) == Some(Hit(5, "</li></ul>"))
  {
    AtChars(ItemsOpened, 9, "</li>");
    AtChars(ItemsOpened, 30, "</li>");
  }

  lemma TwoClosesIn()
    ensures ItemsOpened == "<ul><li>a" + "</li>" + "\n</ul>\n<ul><li>b" + "</li>" + ""
  {
  }

  lemma TwoClosesOut()
    ensures ItemsClosed == "<ul><li>a" + "</li></ul>" + "\n</ul>\n<ul><li>b" + "</li></ul>" + ""
  {
  }

  lemma TwoClosesPass()
    ensures ReplaceAll(ItemsOpened, ItemClosesList) == ItemsClosed
  {
    TwoClosesMisses();
    TwoClosesHits();
    TwoClosesIn();
    TwoClosesOut();
    ReplaceTwoHits("<ul><li>a", "</li>", "\n</ul>\n<ul><li>b", "</li>", "", ItemClosesList, "</li></ul>", "</li></ul>");
  }

  lemma TwoGapOpeners()
    ensures forall j | 0 <= j && j + 2 < |ItemsClosed| && ItemsClosed[j] == '<' && ItemsClosed[j + 1] == '/' && ItemsClosed[j + 2] == 'u' ::
      j == 14 || j == 20 || j == 40
  {
  }

  lemma TwoGapMisses()
    ensures forall j | 0 <= j < |ItemsClosed| && (j < 20 || 30 <= j) :: !HitsAt(ItemsClosed, ListGap, j)
  {
    TwoGapOpeners();
    forall j | 0 <= j < |ItemsClosed| && (j < 20 || 30 <= j) ensures !HitsAt(ItemsClosed, ListGap, j) {
      if j == 14 {
        TwoGapMissInside();
      } else if j == 40 {
        TwoGapMissAtEnd();
      } else {
        AtHead(ItemsClosed, j, "</ul>", 0);
        AtHead(ItemsClosed, j, "</ul>", 1);
        AtHead(ItemsClosed, j, "</ul>", 2);
      }
    }
  }

  lemma TwoGapMissInside()
    ensures !HitsAt(ItemsClosed, ListGap, 14)
  {
    assert ItemsClosed[19] == '\n' && ItemsClosed[20] == '<';
    SpaceEndOne(ItemsClosed, 19);
    AtHead(ItemsClosed, 20, "<ul>", 1);
  }

  lemma TwoGapMissAtEnd()
    ensures !HitsAt(ItemsClosed, ListGap, 40)
  {
    assert SpaceEnd(ItemsClosed, 45) == 45;
  }

  lemma TwoGapHit()
    ensures ListGap(ItemsClosed, 20) == Some(Hit(10, ""))
  {
    AtChars(ItemsClosed, 20, "</ul>");
    AtChars(ItemsClosed, 26, "<ul>");
    TwoGapSpace();
  }

  lemma TwoGapSpace()
    ensures SpaceEnd(ItemsClosed, 25) == 26
  {
    assert ItemsClosed[25] == '\n' && ItemsClosed[26] == '<';
    SpaceEndOne(ItemsClosed, 25);
  }

  lemma TwoGapIn()
    ensures ItemsClosed == "<ul><li>a</li></ul>\n" + "</ul>\n<ul>" + "<li>b</li></ul>"
  {
  }

  lemma TwoGapOut()
    ensures ItemsJoined == "<ul><li>a</li></ul>\n" + "" + "<li>b</li></ul>"
  {
  }

  lemma TwoGapPass()
    ensures ReplaceAll(ItemsClosed, ListGap) == ItemsJoined
  {
    TwoGapMisses();
    TwoGapHit();
    TwoGapIn();
    TwoGapOut();
    ReplaceOneHit("<ul><li>a</li></ul>\n", "</ul>\n<ul>", "<li>b</li></ul>", ListGap, "");
  }

  /** Two consecutive `-` items: the pair rewrite ends a list after the
      first item and starts one before the second, the line rewrites put
      `<ul>` in front of the first item and `</ul>` after each, and the gap
      rewrite removes the `</ul>` and `<ul>` between the items. The second
      item is left with a closing `</ul>` and no opening one. */
  lemma ListsOfTwoBullets()
    ensures Lists("- a\n- b") == "<ul><li>a</li></ul>\n<li>b</li></ul>"
  {
    TwoBulletPass();
    TwoNumberedPass();
    TwoPairPass();
    TwoOpensPass();
    TwoClosesPass();
    TwoGapPass();
  }

  // ---------------------------------------------------------------------
  // Emphasis

  const StrongOpen: string := "<strong class=\"font-semibold " + "text-gray-900 dark:text-white\">"
  const MarkOpen: string := "<mark class=\"bg-yellow-200 " + "dark:bg-yellow-500/30 px-1 rounded\">"

  /** `\*\*(.*?)\*\*` */
  function Bold(s: string, i: nat): Option<Hit> {
    Delimited(s, i, "**", "**", StrongOpen, "</strong>")
  }

  /** `\*(.*?)\*` */
  function Italic(s: string, i: nat): Option<Hit> {
    Delimited(s, i, "*", "*", "<em class=\"italic\">", "</em>")
  }

  /** `==(.*?)==` */
  function Highlight(s: string, i: nat): Option<Hit> {
    Delimited(s, i, "==", "==", MarkOpen, "</mark>")
  }

  /** Headings, lists, bold, italic and highlighted text, in this order. */
  function Structure(s: string): string {
    ReplaceAll(ReplaceAll(ReplaceAll(Lists(ReplaceAll(s, Heading)), Bold), Italic), Highlight)
  }

  // ---------------------------------------------------------------------
  // Paragraphs

  /** `\n\n+`, the separator of the paragraph pass. */
  function ParagraphBreak(s: string, i: nat): (h: Option<Hit>)
    ensures h.Some? ==> i <= |s| && h.value.len == LeadNL(s[i..]) && h.value.len >= 2
  {
    if i <= |s| && LeadNL(s[i..]) >= 2 then Some(Hit(LeadNL(s[i..]), [])) else None
  }

  predicate IsTagged(t: string) { StartsWith(t, "<") && EndsWith(t, ">") }

  /** A block whose trimmed text starts with `<` and ends with `>` stays as it
      is; any other block becomes a trimmed paragraph. */
  function Wrap(p: string): (w: string)
    ensures IsTagged(Trim(p)) ==> w == p
    ensures !IsTagged(Trim(p)) ==> w == "<p>" + Trim(p) + "</p>"
  {
    if IsTagged(Trim(p)) then p else "<p>" + Trim(p) + "</p>"
  }

  function WrapAll(ps: seq<string>): (ws: seq<string>)
    ensures |ws| == |ps| && forall k | 0 <= k < |ps| :: ws[k] == Wrap(ps[k])
  {
    seq(|ps|, k requires 0 <= k < |ps| => Wrap(ps[k]))
  }

  /** The blocks of the paragraph pass: `content.split(/\n\n+/)`. */
  function Blocks(s: string): (bs: seq<string>)
    ensures |bs| >= 1
  {
    SplitBy(s, ParagraphBreak)
  }

  /** The paragraph pass: split on blank lines, wrap, join with `\n\n`. */
  function Paragraphs(s: string): string {
    Join(WrapAll(Blocks(s)), "\n\n")
  }

  /** No two line feeds in a row. */
  predicate NoBlankLine(b: string) {
    forall j | 0 <= j < |b| - 1 :: !(b[j] == '\n' && b[j + 1] == '\n')
  }

  predicate StartsWithLF(b: string) { b != [] && b[0] == '\n' }
  predicate EndsWithLF(b: string) { b != [] && b[|b| - 1] == '\n' }

  /** How the separator cuts: no piece holds a blank line, a piece ends
      without a line feed when another follows, and starts without one when
      another precedes it. */
  predicate Cut(bs: seq<string>) {
    && (forall k | 0 <= k < |bs| :: NoBlankLine(bs[k]))
    && (forall k | 0 <= k < |bs| - 1 :: !EndsWithLF(bs[k]))
    && (forall k | 0 < k < |bs| :: !StartsWithLF(bs[k]))
  }

  lemma BreakAt(s: string, j: nat)
    ensures HitsAt(s, ParagraphBreak, j) <==> j + 1 < |s| && s[j] == '\n' && s[j + 1] == '\n'
  {
    if j + 1 < |s| && s[j] == '\n' && s[j + 1] == '\n' {
      assert s[j..][0] == '\n' && s[j..][1] == '\n';
      assert LeadNL(s[j..]) >= 2;
    }
  }

  /** The pieces of a split, from a piece starting at `p` with no separator
      between `p` and `q`. */
  lemma {:induction false} SplitCuts(s: string, p: nat, q: nat)
    requires p <= q <= |s|
    requires forall j | p <= j < q :: !HitsAt(s, ParagraphBreak, j)
    ensures Cut(SplitFrom(s, ParagraphBreak, p, q))
    ensures p == |s| || s[p] != '\n' ==> !StartsWithLF(SplitFrom(s, ParagraphBreak, p, q)[0])
    decreases |s| - q
  {
    var parts := SplitFrom(s, ParagraphBreak, p, q);
    if q == |s| {
      forall j | 0 <= j < |s[p..]| - 1
        ensures !(s[p..][j] == '\n' && s[p..][j + 1] == '\n')
      {
        BreakAt(s, p + j);
      }
    } else if HitsAt(s, ParagraphBreak, q) {
      var e := q + LeadNL(s[q..]);
      SplitCuts(s, e, e);
      var rest := SplitFrom(s, ParagraphBreak, e, e);
      assert parts == [s[p..q]] + rest;
      assert e == |s| || s[e] != '\n' by {
        assert s[q..][LeadNL(s[q..])..] == s[e..];
      }
      forall j | 0 <= j < |s[p..q]| - 1
        ensures !(s[p..q][j] == '\n' && s[p..q][j + 1] == '\n')
      {
        BreakAt(s, p + j);
      }
      if p < q {
        BreakAt(s, q - 1);
        BreakAt(s, q);
      }
      assert forall k | 0 < k < |parts| :: parts[k] == rest[k - 1];
    } else {
      SplitCuts(s, p, q + 1);
    }
  }

  lemma BlocksAreCut(s: string)
    ensures Cut(Blocks(s))
  {
    SplitCuts(s, 0, 0);
  }

  /** Whether a separator starts at `q` does not depend on what precedes `m`;
      `t` is the text from `m` and `q2` the position `q` in it. */
  lemma BreakShift(s: string, t: string, m: nat, q: nat, q2: nat)
    requires m <= q <= |s| && t == s[m..] && q2 + m == q
    ensures ParagraphBreak(s, q) == ParagraphBreak(t, q2)
  {
    assert t[q2..] == s[q..];
  }

  /** A separator cuts the same way after any prefix. */
  lemma SplitShift(s: string, m: nat)
    requires m <= |s|
    ensures SplitFrom(s, ParagraphBreak, m, m) == SplitBy(s[m..], ParagraphBreak)
  {
    var t := s[m..];
    forall q | m <= q <= |s|
      ensures ParagraphBreak(s, q) == ParagraphBreak(t, q - m)
    {
      BreakShift(s, t, m, q, q - m);
    }
    SplitSuffix(s, t, ParagraphBreak, m, m, m, 0, 0);
  }

  /** Where no separator starts, the split only moves on. */
  lemma {:induction false} SplitSkip(s: string, p: nat, q: nat, q': nat)
    requires p <= q <= q' <= |s|
    requires forall j | q <= j < q' :: !HitsAt(s, ParagraphBreak, j)
    ensures SplitFrom(s, ParagraphBreak, p, q) == SplitFrom(s, ParagraphBreak, p, q')
    decreases q' - q
  {
    if q < q' {
      SplitSkip(s, p, q + 1, q');
    }
  }

  /** The first block is where joined text starts. */
  lemma JoinStart(bs: seq<string>, sep: string)
    requires |bs| >= 2
    ensures Join(bs, sep) == bs[0] + sep + Join(bs[1..], sep)
    ensures bs[1] != [] ==> Join(bs[1..], sep) != [] && Join(bs[1..], sep)[0] == bs[1][0]
  {
    if bs[1] != [] && |bs| > 2 {
      assert bs[1..][1..] == bs[2..];
      assert Join(bs[1..], sep) == bs[1] + sep + Join(bs[2..], sep);
    }
  }

  /** No separator starts inside a first block that holds no blank line and
      does not end in a line feed. */
  lemma FirstBlockUnbroken(b: string, t: string)
    requires NoBlankLine(b) && !EndsWithLF(b)
    ensures forall j | 0 <= j < |b| :: !HitsAt(b + "\n\n" + t, ParagraphBreak, j)
  {
    var s := b + "\n\n" + t;
    forall j | 0 <= j < |b|
      ensures !HitsAt(s, ParagraphBreak, j)
    {
      BreakAt(s, j);
      if j + 1 < |b| {
        assert s[j] == b[j] && s[j + 1] == b[j + 1];
      } else {
        assert s[j] == b[|b| - 1];
      }
    }
  }

  /** The two line feeds after the first block are exactly one separator. */
  lemma BreakAfterFirst(b: string, t: string)
    requires t != [] && !StartsWithLF(t)
    ensures var s := b + "\n\n" + t;
      && HitsAt(s, ParagraphBreak, |b|) && ParagraphBreak(s, |b|).value.len == 2
  {
    var s := b + "\n\n" + t;
    assert s[|b|..][0] == '\n' && s[|b|..][1] == '\n' && s[|b|..][2] == t[0];
    assert LeadNL(s[|b|..]) == 2;
    BreakAt(s, |b|);
  }

  /** Splitting a first block, a separator and the rest. */
  lemma SplitStep(b: string, t: string)
    requires NoBlankLine(b) && !EndsWithLF(b)
    requires t != [] && !StartsWithLF(t)
    ensures Blocks(b + "\n\n" + t) == [b] + Blocks(t)
  {
    var s := b + "\n\n" + t;
    var e := |b| + 2;
    FirstBlockUnbroken(b, t);
    SplitSkip(s, 0, 0, |b|);
    BreakAfterFirst(b, t);
    assert SplitFrom(s, ParagraphBreak, 0, |b|) == [s[0..|b|]] + SplitFrom(s, ParagraphBreak, e, e);
    SplitShift(s, e);
    assert s[e..] == t;
    assert s[0..|b|] == b;
  }

  /** Joining with `\n\n` and splitting on blank lines gives back blocks that
      are non-empty and cut the way the separator cuts. */
  lemma {:induction false} SplitOfJoin(bs: seq<string>)
    requires |bs| >= 1 && Cut(bs)
    requires forall k | 0 <= k < |bs| :: bs[k] != []
    ensures Blocks(Join(bs, "\n\n")) == bs
  {
    var s := Join(bs, "\n\n");
    if |bs| == 1 {
      forall j | 0 <= j < |s|
        ensures !HitsAt(s, ParagraphBreak, j)
      {
        BreakAt(s, j);
      }
      SplitSkip(s, 0, 0, |s|);
      assert s[0..] == bs[0];
    } else {
      var t := Join(bs[1..], "\n\n");
      JoinStart(bs, "\n\n");
      SplitStep(bs[0], t);
      assert Cut(bs[1..]) by {
        assert forall k | 0 <= k < |bs| - 1 :: bs[1..][k] == bs[k + 1];
      }
      SplitOfJoin(bs[1..]);
      assert bs == [bs[0]] + bs[1..];
    }
  }

  /** A wrapped block is non-empty, holds no blank line, and starts and ends
      like its source unless it was wrapped in `<p>`. */
  lemma WrapShape(p: string)
    requires NoBlankLine(p)
    ensures Wrap(p) != [] && NoBlankLine(Wrap(p))
    ensures StartsWithLF(Wrap(p)) ==> StartsWithLF(p)
    ensures EndsWithLF(Wrap(p)) ==> EndsWithLF(p)
  {
    var t := Trim(p);
    var a := SpaceEnd(p, 0);
    assert t == p[a..a + |t|];
    if !IsTagged(t) {
      var w := "<p>" + t + "</p>";
      forall j | 0 <= j < |w| - 1
        ensures !(w[j] == '\n' && w[j + 1] == '\n')
      {
        if 3 <= j && j + 1 < 3 + |t| {
          assert w[j] == p[a + j - 3] && w[j + 1] == p[a + j - 2];
        }
      }
    }
  }

  /** A wrapped block is wrapped again as itself. */
  lemma WrapTwice(p: string)
    ensures Wrap(Wrap(p)) == Wrap(p)
  {
    var t := Trim(p);
    if !IsTagged(t) {
      var w := "<p>" + t + "</p>";
      TrimOfTrimmed(w);
      assert IsTagged(w);
    }
  }

  /** Re-running the paragraph pass on its own output changes nothing. */
  lemma ParagraphsIdempotent(s: string)
    ensures Paragraphs(Paragraphs(s)) == Paragraphs(s)
  {
    var bs := Blocks(s);
    var ws := WrapAll(bs);
    BlocksAreCut(s);
    forall k | 0 <= k < |bs|
      ensures ws[k] != [] && NoBlankLine(ws[k])
      ensures StartsWithLF(ws[k]) ==> StartsWithLF(bs[k])
      ensures EndsWithLF(ws[k]) ==> EndsWithLF(bs[k])
    {
      WrapShape(bs[k]);
    }
    SplitOfJoin(ws);
    forall k | 0 <= k < |ws|
      ensures WrapAll(ws)[k] == ws[k]
    {
      WrapTwice(bs[k]);
    }
    assert WrapAll(ws) == ws;
  }

  // ---------------------------------------------------------------------
  // Note blocks

  datatype NoteKind = Important | Tip | Example | Steps

  function KindName(k: NoteKind): string {
    match k
    case Important => "important"
    case Tip => "tip"
    case Example => "example"
    case Steps => "steps"
  }

  /** `(important|tip|example|steps)` at `j`: the alternatives start with
      different letters, so at most one applies. */
  function KindAt(s: string, j: nat): (k: Option<NoteKind>)
    ensures k.Some? ==> At(s, j, KindName(k.value))
    ensures k.Some? ==> j < |s| && (s[j] == 'i' || s[j] == 't' || s[j] == 'e' || s[j] == 's')
  {
    if At(s, j, "important") then assert s[j] == s[j..j + 9][0]; Some(Important)
    else if At(s, j, "tip") then assert s[j] == s[j..j + 3][0]; Some(Tip)
    else if At(s, j, "example") then assert s[j] == s[j..j + 7][0]; Some(Example)
    else if At(s, j, "steps") then assert s[j] == s[j..j + 5][0]; Some(Steps)
    else None
  }

  function NoteColor(k: NoteKind): string {
    match k
    case Important => "bg-purple-50 dark:bg-purple-900/30"
    case Tip => "bg-blue-50 dark:bg-blue-900/30"
    case Example => "bg-green-50 dark:bg-green-900/30"
    case Steps => "bg-indigo-50 dark:bg-indigo-900/30"
  }

  function NoteTitle(k: NoteKind): string {
    match k
    case Important => "Key Concept"
    case Tip => "Helpful Tip"
    case Example => "Example"
    case Steps => "Step-by-Step"
  }

  /** The trimmed template of a note block: its markup up to the body, the
      trimmed body, and the markup that closes it. */
  function NoteHtml(color: string, icon: string, title: string, body: string): string {
    NoteHead(color, icon, title) + Trim(body) + NoteTail
  }

  function NoteHead(color: string, icon: string, title: string): string {
    "<div class=\"my-4 p-4 rounded-lg " + color + " overflow-hidden\">\n"
      + "        <div class=\"flex items-center gap-2 " + "font-medium text-gray-800 " + "dark:text-gray-200 mb-2\">\n"
      + "          <span class=\"text-xl\">" + icon + "</span>\n"
      + "          <span>" + title + "</span>\n"
      + "        </div>\n"
      + "        <div class=\"text-gray-700 " + "dark:text-gray-300 prose-content\">\n"
      + "          "
  }

  const NoteTail: string := "\n" + "        </div>\n" + "      </div>"

  /** Where the note starting at `i` keeps its body: `(kind, j, e)` with the
      body `s[j..e]` after the kind's name, and `e` the first `:::` after it,
      found over line ends. */
  function NoteSpan(s: string, i: nat): (n: Option<(NoteKind, nat, nat)>)
    ensures n.Some? ==> At(s, i, ":::") && KindAt(s, i + 3) == Some(n.value.0)
    ensures n.Some? ==> n.value.1 == i + 3 + |KindName(n.value.0)|
    ensures n.Some? ==> LazyUntil(s, n.value.1, ":::", true) == Some(n.value.2)
    ensures n.Some? ==> n.value.1 <= n.value.2 && n.value.2 + 3 <= |s|
  {
    if At(s, i, ":::") then
      match KindAt(s, i + 3)
      case Some(k) =>
        var j := i + 3 + |KindName(k)|;
        (match LazyUntil(s, j, ":::", true)
         case Some(e) => Some((k, j, e))
         case None => None)
      case None => None
    else None
  }

  /** `:::(important|tip|example|steps)([\s\S]*?):::` with the icon of each
      kind given: the colour, icon and title of the kind around the trimmed
      body. */
  function Note(icon: NoteKind -> string, s: string, i: nat): (h: Option<Hit>)
    ensures h.Some? <==> NoteSpan(s, i).Some?
    ensures h.Some? ==>
      var (k, j, e) := NoteSpan(s, i).value;
      h.value.out == NoteHtml(NoteColor(k), icon(k), NoteTitle(k), s[j..e])
    ensures h.Some? ==> i + h.value.len == NoteSpan(s, i).value.2 + 3
  {
    match NoteSpan(s, i)
    case Some((k, j, e)) => Some(Hit(e + 3 - i, NoteHtml(NoteColor(k), icon(k), NoteTitle(k), s[j..e])))
    case None => None
  }

  /** Any other kind, such as `:::warning`, is not a note block. */
  lemma OtherKindsPassThrough(icon: NoteKind -> string, s: string, i: nat)
    requires At(s, i, ":::warning") || At(s, i, ":::definition")
    ensures Note(icon, s, i).None?
  {
    assert KindAt(s, i + 3).None? by {
      if At(s, i, ":::warning") {
        assert s[i + 3] == s[i..i + 10][3];
      } else {
        assert s[i + 3] == s[i..i + 13][3];
      }
    }
  }

  // ---------------------------------------------------------------------
  // Clean-up

  function ParagraphThenList(s: string, i: nat): Option<Hit> { Literal(s, i, "</p><ul>", "</p>\n<ul>") }
  function ListThenParagraph(s: string, i: nat): Option<Hit> { Literal(s, i, "</ul><p>", "</ul>\n<p>") }

  /** `<p>\s*<\/p>`, removed. */
  function EmptyParagraph(s: string, i: nat): (h: Option<Hit>)
    ensures h.Some? <==> At(s, i, "<p>") && At(s, SpaceEnd(s, i + 3), "</p>")
    ensures h.Some? ==> h.value == Hit(SpaceEnd(s, i + 3) + 4 - i, [])
  {
    if At(s, i, "<p>") && At(s, SpaceEnd(s, i + 3), "</p>") then Some(Hit(SpaceEnd(s, i + 3) + 4 - i, []))
    else None
  }

  /** `<p><p>(.*?)<\/p><\/p>`, replaced by `<p>$1</p>`. */
  function DoubleParagraph(s: string, i: nat): Option<Hit> {
    Delimited(s, i, "<p><p>", "</p></p>", "<p>", "</p>")
  }

  /** The four clean-up rewrites, then `trim()`. */
  function Cleanup(s: string): (r: string)
    ensures r == [] || (!IsSpace(r[0]) && !IsSpace(r[|r| - 1]))
  {
    Trim(ReplaceAll(ReplaceAll(ReplaceAll(ReplaceAll(s, ParagraphThenList), ListThenParagraph), EmptyParagraph), DoubleParagraph))
  }
}
