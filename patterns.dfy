/**
 * Building blocks for the regular expressions of the services, each with the
 * meaning JavaScript's backtracking matcher gives it at one position.
 */
module Patterns {
  import opened Wrappers
  import opened Text
  import opened Scan

  /** `(.*?)lit`, or `([\s\S]*?)lit` when `dotAll`, tried from `j`: where the
      shortest body ends, i.e. the first occurrence of `lit` at or after `j`
      that is not behind a line terminator (unless `dotAll`). */
  function LazyUntil(s: string, j: nat, lit: string, dotAll: bool): (k: Option<nat>)
    requires j <= |s|
    requires |lit| > 0
    ensures k.Some? ==> j <= k.value && k.value + |lit| <= |s| && At(s, k.value, lit)
    ensures k.Some? ==> forall m | j <= m < k.value :: !At(s, m, lit)
    ensures k.Some? && !dotAll ==> NoLineTerminator(s[j..k.value])
    decreases |s| - j
  {
    if j + |lit| > |s| then None
    else if At(s, j, lit) then Some(j)
    else if !dotAll && IsLineTerminator(s[j]) then None
    else
      var k := LazyUntil(s, j + 1, lit, dotAll);
      if k.Some? && !dotAll then
        assert s[j..k.value] == [s[j]] + s[j + 1..k.value];
        k
      else k
  }

  /** The lazy body ends at `k` when `lit` occurs there and nowhere before
      it from `j`, and (without `dotAll`) no line ends in between. */
  lemma {:induction false} LazyUntilFinds(s: string, j: nat, lit: string, dotAll: bool, k: nat)
    requires j <= k && |lit| > 0 && At(s, k, lit)
    requires forall m | j <= m < k :: !At(s, m, lit)
    requires !dotAll ==> forall m | j <= m < k :: !IsLineTerminator(s[m])
    ensures LazyUntil(s, j, lit, dotAll) == Some(k)
    decreases k - j
  {
    if j < k {
      LazyUntilFinds(s, j + 1, lit, dotAll, k);
    }
  }

  /** Multiline `^`: the start of the input or just after a line terminator. */
  predicate LineStart(s: string, i: nat) {
    i == 0 || (i <= |s| && IsLineTerminator(s[i - 1]))
  }

  /** `.*` followed by multiline `$`: the rest of the line from `j`. */
  function LineEnd(s: string, j: nat): (e: nat)
    requires j <= |s|
    ensures j <= e <= |s|
    ensures NoLineTerminator(s[j..e])
    ensures e == |s| || IsLineTerminator(s[e])
    decreases |s| - j
  {
    if j == |s| || IsLineTerminator(s[j]) then j
    else
      var e := LineEnd(s, j + 1);
      assert s[j..e] == [s[j]] + s[j + 1..e];
      e
  }

  /** `(n1|n2|...)([^a-zA-Z])` at `j`: the first alternative that occurs at `j`
      and is followed by a character that is not an ASCII letter. */
  function NameBeforeNonLetter(s: string, j: nat, names: seq<string>): (n: Option<string>)
    ensures n.Some? ==> (n.value in names && At(s, j, n.value)
                         && j + |n.value| < |s| && !IsLetter(s[j + |n.value|]))
  {
    if names == [] then None
    else if At(s, j, names[0]) && j + |names[0]| < |s| && !IsLetter(s[j + |names[0]|]) then Some(names[0])
    else NameBeforeNonLetter(s, j, names[1..])
  }

  /** `(n1|n2|...)` at `j`: the first alternative that occurs there. */
  function FirstNameAt(s: string, j: nat, names: seq<string>): (n: Option<string>)
    ensures n.Some? ==> n.value in names && At(s, j, n.value)
    ensures n.None? ==> forall m | m in names :: !At(s, j, m)
  {
    if names == [] then None
    else if At(s, j, names[0]) then Some(names[0])
    else FirstNameAt(s, j, names[1..])
  }

  /** `(n1|n2|...)` at `j` under the `i` flag: the first alternative that
      occurs there, letters compared without regard to case. */
  function FirstNameFolded(s: string, j: nat, names: seq<string>): (n: Option<string>)
    ensures n.Some? ==> n.value in names && AtFolded(s, j, n.value)
    ensures n.None? ==> forall m | m in names :: !AtFolded(s, j, m)
  {
    if names == [] then None
    else if AtFolded(s, j, names[0]) then Some(names[0])
    else FirstNameFolded(s, j, names[1..])
  }

  /** The name `FirstNameAt` picks is the first one listed that occurs at
      `j`: every name listed before it does not occur there. */
  lemma {:induction false} FirstNameAtFirst(s: string, j: nat, names: seq<string>)
    ensures FirstNameAt(s, j, names).Some? ==> exists k | 0 <= k < |names| ::
      names[k] == FirstNameAt(s, j, names).value && forall m | 0 <= m < k :: !At(s, j, names[m])
  {
    if names != [] && !At(s, j, names[0]) {
      FirstNameAtFirst(s, j, names[1..]);
      if FirstNameAt(s, j, names[1..]).Some? {
        var k :| 0 <= k < |names[1..]| && names[1..][k] == FirstNameAt(s, j, names[1..]).value
          && forall m | 0 <= m < k :: !At(s, j, names[1..][m]);
        assert names[k + 1] == FirstNameAt(s, j, names).value;
        forall m | 0 <= m < k + 1 ensures !At(s, j, names[m]) {
          if m > 0 {
            assert names[m] == names[1..][m - 1];
          }
        }
      }
    } else if names != [] {
      assert names[0] == FirstNameAt(s, j, names).value;
    }
  }

  /** Likewise under the `i` flag. */
  lemma {:induction false} FirstNameFoldedFirst(s: string, j: nat, names: seq<string>)
    ensures FirstNameFolded(s, j, names).Some? ==> exists k | 0 <= k < |names| ::
      names[k] == FirstNameFolded(s, j, names).value && forall m | 0 <= m < k :: !AtFolded(s, j, names[m])
  {
    if names != [] && !AtFolded(s, j, names[0]) {
      FirstNameFoldedFirst(s, j, names[1..]);
      if FirstNameFolded(s, j, names[1..]).Some? {
        var k :| 0 <= k < |names[1..]| && names[1..][k] == FirstNameFolded(s, j, names[1..]).value
          && forall m | 0 <= m < k :: !AtFolded(s, j, names[1..][m]);
        assert names[k + 1] == FirstNameFolded(s, j, names).value;
        forall m | 0 <= m < k + 1 ensures !AtFolded(s, j, names[m]) {
          if m > 0 {
            assert names[m] == names[1..][m - 1];
          }
        }
      }
    } else if names != [] {
      assert names[0] == FirstNameFolded(s, j, names).value;
    }
  }

  /** The first `c` at or after `j`. */
  function IndexFrom(s: string, j: nat, c: char): (k: Option<nat>)
    requires j <= |s|
    ensures k.Some? ==> j <= k.value < |s| && s[k.value] == c
    ensures forall m | j <= m < (if k.Some? then k.value else |s|) :: s[m] != c
    decreases |s| - j
  {
    if j == |s| then None
    else if s[j] == c then Some(j)
    else IndexFrom(s, j + 1, c)
  }

  /** Where the body of `open([\s\S]*?)close` (or `open(.*?)close` when not
      `dotAll`) ends, when the pattern matches at `i`. */
  function BodyEnd(s: string, i: nat, open: string, close: string, dotAll: bool): (k: Option<nat>)
    requires |close| > 0
    ensures k.Some? ==> At(s, i, open) && i + |open| <= k.value && At(s, k.value, close)
    ensures k.Some? ==> forall m | i + |open| <= m < k.value :: !At(s, m, close)
  {
    if At(s, i, open) then LazyUntil(s, i + |open|, close, dotAll) else None
  }

  /** `open([\s\S]*?)close`, the whole match replaced by `f` of the body. */
  function Enclosed(s: string, i: nat, open: string, close: string, f: string -> string): (h: Option<Hit>)
    requires |close| > 0
    ensures h.Some? <==> BodyEnd(s, i, open, close, true).Some?
    ensures h.Some? ==> var k := BodyEnd(s, i, open, close, true).value;
      h.value == Hit(k + |close| - i, f(s[i + |open|..k]))
  {
    var k := BodyEnd(s, i, open, close, true);
    if k.None? then None
    else
      assert At(s, k.value, close);
      Some(Hit(k.value + |close| - i, f(s[i + |open|..k.value])))
  }

  lemma AtHead(s: string, m: nat, p: string, k: nat)
    requires k < |p|
    ensures At(s, m, p) ==> m + k < |s| && s[m + k] == p[k]
  {
    if At(s, m, p) {
      assert s[m..m + |p|][k] == s[m + k];
    }
  }

  /** A pass whose every match starts with `open` leaves text alone that
      lacks one of the characters of `open`. */
  lemma NoOpenerNoHit(t: string, r: Rule, open: string, k: nat)
    requires k < |open| && open[k] !in t
    requires forall j | 0 <= j < |t| && HitsAt(t, r, j) :: At(t, j, open)
    ensures ReplaceAll(t, r) == t
  {
    forall j | 0 <= j < |t| ensures !HitsAt(t, r, j) {
      AtHead(t, j, open, k);
      if j + k < |t| {
        assert t[j + k] in t;
      }
    }
    ReplaceWithoutHits(t, r, 0);
  }

  /** `open u close` at the end of `a`, with no character of `u` able to
      start `close`, is one match whose body is `u`. */
  lemma EnclosedAt(a: string, u: string, c: string, open: string, close: string)
    requires |close| > 0 && close[0] !in u
    ensures var t := a + open + u + close + c;
      BodyEnd(t, |a|, open, close, true) == Some(|a| + |open| + |u|)
      && t[|a| + |open|..|a| + |open| + |u|] == u
  {
    var t := a + open + u + close + c;
    var j := |a| + |open|;
    FramedPieces(a, open, u, close, c);
    forall m | j <= m < j + |u| ensures !At(t, m, close) {
      AtHead(t, m, close, 0);
      assert t[m] == t[j..j + |u|][m - j];
    }
    LazyUntilFinds(t, j, close, true, j + |u|);
  }

  /** Where the pieces of `a + open + u + close + c` sit. */
  lemma FramedPieces(a: string, open: string, u: string, close: string, c: string)
    ensures var t := a + open + u + close + c;
      var j := |a| + |open|;
      && At(t, |a|, open) && t[j..j + |u|] == u && At(t, j + |u|, close)
  {
    JoinAssoc(a + open + u, close, c);
    MiddleSlice(a + open + u, close, c);
    JoinAssoc(a + open, u, close);
    JoinAssoc(a + open, u + close, c);
    MiddleSlice(a + open, u, close + c);
    JoinAssoc(a, open, u);
    JoinAssoc(a, open + u, close);
    JoinAssoc(a, open + u + close, c);
    JoinAssoc(open, u, close);
    JoinAssoc(open, u + close, c);
    MiddleSlice(a, open, u + close + c);
  }

  lemma JoinAssoc(x: string, y: string, z: string)
    ensures x + y + z == x + (y + z)
  {
  }

  lemma MiddleSlice(x: string, y: string, z: string)
    ensures (x + y + z)[|x|..|x| + |y|] == y
  {
  }

  /** A pass that matches exactly once, on the middle piece `m` of
      `a + m + c`, replaces that piece and nothing else; the text around it
      holds no first character of the pass's opener. */
  lemma ReplaceOnce(a: string, m: string, c: string, r: Rule, open: string)
    requires open != [] && open[0] !in a && open[0] !in c
    requires forall j | 0 <= j < |a + m + c| && HitsAt(a + m + c, r, j) :: At(a + m + c, j, open)
    requires HitsAt(a + m + c, r, |a|) && r(a + m + c, |a|).value.len == |m|
    ensures ReplaceAll(a + m + c, r) == a + r(a + m + c, |a|).value.out + c
  {
    var t := a + m + c;
    forall j | 0 <= j < |t| && (j < |a| || |a| + |m| <= j) ensures !HitsAt(t, r, j) {
      AtHead(t, j, open, 0);
      if j < |a| {
        assert t[j] == a[j];
      } else {
        assert t[j] == c[j - |a| - |m|];
      }
    }
    ReplaceSkipping(t, r, 0, |a|);
    ReplaceWithoutHits(t, r, |a| + |m|);
    assert t[0..|a|] == a;
    assert t[|a| + |m|..] == c;
  }
}
