/**
 * JavaScript's global `String.prototype.replace`, `replace` without the `g`
 * flag, `match` with the `g` flag and `split` on a regular expression, as one
 * left-to-right scanner.
 *
 * A regular expression together with its replacement is a `Rule`: tried at a
 * position of the ORIGINAL string it either fails or consumes a non-empty run
 * of characters and says what replaces them. The scanner tries the rule at the
 * leftmost position, copies a character when the rule fails there, and after
 * a match resumes right after the consumed text, so matches never overlap and
 * a replacement is never rescanned. Which match a rule reports at a position
 * (the first one in backtracking order, so `*?` takes the shortest body and
 * greedy repetition the longest run that lets the rest match) is decided by
 * each rule.
 */
module Scan {
  import opened Wrappers
  import opened Text

  /** A match at a position: the number of characters consumed and their replacement. */
  datatype Hit = Hit(len: nat, out: string)

  type Rule = (string, nat) -> Option<Hit>

  /** The rule matches at `i`, consuming at least one character of `s`. */
  predicate HitsAt(s: string, r: Rule, i: nat) {
    i < |s| && r(s, i).Some? && 0 < r(s, i).value.len && i + r(s, i).value.len <= |s|
  }

  /** `s.replace(re, ...)` with the `g` flag, from position `i` on. */
  function ReplaceFrom(s: string, r: Rule, i: nat): string
    requires i <= |s|
    decreases |s| - i
  {
    if i == |s| then []
    else if HitsAt(s, r, i) then r(s, i).value.out + ReplaceFrom(s, r, i + r(s, i).value.len)
    else [s[i]] + ReplaceFrom(s, r, i + 1)
  }

  function ReplaceAll(s: string, r: Rule): string {
    ReplaceFrom(s, r, 0)
  }

  /** One step of the scan at a match ... */
  lemma ReplaceAtHit(s: string, r: Rule, i: nat)
    requires HitsAt(s, r, i)
    ensures ReplaceFrom(s, r, i) == r(s, i).value.out + ReplaceFrom(s, r, i + r(s, i).value.len)
  {
  }

  /** ... and at a character it keeps. */
  lemma ReplaceAtMiss(s: string, r: Rule, i: nat)
    requires i < |s| && !HitsAt(s, r, i)
    ensures ReplaceFrom(s, r, i) == [s[i]] + ReplaceFrom(s, r, i + 1)
  {
  }

  /** The leftmost position at or after `i` where the rule matches. */
  function FirstHit(s: string, r: Rule, i: nat): (k: Option<nat>)
    requires i <= |s|
    ensures k.Some? ==> i <= k.value < |s| && HitsAt(s, r, k.value)
    ensures forall j | i <= j < (if k.Some? then k.value else |s|) :: !HitsAt(s, r, j)
    decreases |s| - i
  {
    if i == |s| then None
    else if HitsAt(s, r, i) then Some(i)
    else FirstHit(s, r, i + 1)
  }

  /** `s.replace(re, ...)` without the `g` flag: only the leftmost match is replaced. */
  function ReplaceFirst(s: string, r: Rule): (t: string)
    ensures FirstHit(s, r, 0).None? ==> t == s
  {
    match FirstHit(s, r, 0)
    case None => s
    case Some(k) => s[..k] + r(s, k).value.out + s[k + r(s, k).value.len..]
  }

  /** The matched texts of `s.match(re)` with the `g` flag, from position `i` on. */
  function MatchesFrom(s: string, r: Rule, i: nat): seq<string>
    requires i <= |s|
    decreases |s| - i
  {
    if i == |s| then []
    else if HitsAt(s, r, i) then [s[i..i + r(s, i).value.len]] + MatchesFrom(s, r, i + r(s, i).value.len)
    else MatchesFrom(s, r, i + 1)
  }

  /** A match at `i` is the next matched text. */
  lemma MatchesAtHit(s: string, r: Rule, i: nat, e: nat)
    requires HitsAt(s, r, i) && e == i + r(s, i).value.len
    ensures MatchesFrom(s, r, i) == [s[i..e]] + MatchesFrom(s, r, e)
  {
  }

  /** `s.split(re)` for a separator without capture groups: `p` is where the
      current piece starts, `q` where the separator is tried next. */
  function SplitFrom(s: string, r: Rule, p: nat, q: nat): (parts: seq<string>)
    requires p <= q <= |s|
    ensures |parts| >= 1
    decreases |s| - q
  {
    if q == |s| then [s[p..]]
    else if HitsAt(s, r, q) then [s[p..q]] + SplitFrom(s, r, q + r(s, q).value.len, q + r(s, q).value.len)
    else SplitFrom(s, r, p, q + 1)
  }

  function SplitBy(s: string, r: Rule): (parts: seq<string>)
    ensures |parts| >= 1
  {
    SplitFrom(s, r, 0, 0)
  }

  /** A split reads the same from `m` on as the split of the text from `m`,
      when the rule sees the same there; `p2`, `q2` are `p`, `q` in `t`. */
  lemma {:induction false} SplitSuffix(s: string, t: string, r: Rule, m: nat, p: nat, q: nat, p2: nat, q2: nat)
    requires m <= p <= q <= |s| && t == s[m..] && p2 + m == p && q2 + m == q
    requires forall j | m <= j <= |s| :: r(s, j) == r(t, j - m)
    ensures SplitFrom(s, r, p, q) == SplitFrom(t, r, p2, q2)
    decreases |s| - q
  {
    if q < |s| {
      assert r(s, q) == r(t, q2);
      if HitsAt(s, r, q) {
        var n := r(s, q).value.len;
        SplitSuffix(s, t, r, m, q + n, q + n, q2 + n, q2 + n);
        assert t[p2..q2] == s[p..q];
      } else {
        SplitSuffix(s, t, r, m, p, q + 1, p2, q2 + 1);
      }
    } else {
      assert t[p2..] == s[p..];
    }
  }

  /** A match at the start is replaced, and the scan resumes after it. */
  lemma ReplaceLeadingHit(x: string, r: Rule, len: nat, out: string)
    requires 0 < len <= |x| && r(x, 0) == Some(Hit(len, out))
    ensures ReplaceAll(x, r) == out + ReplaceFrom(x, r, len)
  {
  }

  /** A first character where the rule does not match is kept. */
  lemma ReplaceLeadingMiss(x: string, r: Rule)
    requires x != [] && r(x, 0).None?
    ensures ReplaceAll(x, r) == [x[0]] + ReplaceFrom(x, r, 1)
  {
  }

  /** Replacing reads the same from `m` on as replacing in the text from
      `m`, when the rule sees the same there. */
  lemma {:induction false} ReplaceSuffix(s: string, t: string, r: Rule, m: nat, i: nat)
    requires m <= i <= |s| && t == s[m..]
    requires forall j | m <= j <= |s| :: r(s, j) == r(t, j - m)
    ensures ReplaceFrom(s, r, i) == ReplaceFrom(t, r, i - m)
    decreases |s| - i
  {
    if i < |s| {
      assert r(s, i) == r(t, i - m);
      assert s[i] == t[i - m];
      if HitsAt(s, r, i) {
        ReplaceSuffix(s, t, r, m, i + r(s, i).value.len);
      } else {
        ReplaceSuffix(s, t, r, m, i + 1);
      }
    }
  }

  /** Replacing in `x + y` is replacing in `x` and then going on in `y`,
      when on `x` the rule sees only `x` and its matches end inside it. */
  lemma {:induction false} ReplaceSplit(x: string, y: string, r: Rule, j: nat)
    requires j <= |x|
    requires forall k | j <= k < |x| :: r(x + y, k) == r(x, k)
    requires forall k | j <= k < |x| :: r(x, k).Some? ==> k + r(x, k).value.len <= |x|
    ensures ReplaceFrom(x + y, r, j) == ReplaceFrom(x, r, j) + ReplaceFrom(x + y, r, |x|)
    decreases |x| - j
  {
    if j < |x| {
      assert r(x + y, j) == r(x, j);
      var n := if HitsAt(x, r, j) then r(x, j).value.len else 1;
      ReplaceSplit(x, y, r, j + n);
      ReplaceSplitStep(x, y, r, j, n);
    }
  }

  /** One step of `ReplaceSplit`: what is read at `j` is read alike in `x`
      and in `x + y`. */
  lemma ReplaceSplitStep(x: string, y: string, r: Rule, j: nat, n: nat)
    requires j < |x| && r(x + y, j) == r(x, j)
    requires r(x, j).Some? ==> j + r(x, j).value.len <= |x|
    requires n == if HitsAt(x, r, j) then r(x, j).value.len else 1
    requires ReplaceFrom(x + y, r, j + n) == ReplaceFrom(x, r, j + n) + ReplaceFrom(x + y, r, |x|)
    ensures ReplaceFrom(x + y, r, j) == ReplaceFrom(x, r, j) + ReplaceFrom(x + y, r, |x|)
  {
    ReplaceStep(x + y, r, j);
    ReplaceStep(x, r, j);
    assert (x + y)[j] == x[j];
    assert StepLen(x + y, r, j) == n && StepOut(x + y, r, j) == StepOut(x, r, j);
    AppendAssoc(StepOut(x, r, j), ReplaceFrom(x, r, j + n), ReplaceFrom(x + y, r, |x|));
  }

  lemma AppendAssoc(a: string, b: string, c: string)
    ensures a + (b + c) == a + b + c
  {
  }

  /** How far one step of the scan at `i` reads, and what it writes. */
  function StepLen(s: string, r: Rule, i: nat): nat
    requires i < |s|
  {
    if HitsAt(s, r, i) then r(s, i).value.len else 1
  }

  function StepOut(s: string, r: Rule, i: nat): string
    requires i < |s|
  {
    if HitsAt(s, r, i) then r(s, i).value.out else [s[i]]
  }

  lemma ReplaceStep(s: string, r: Rule, i: nat)
    requires i < |s|
    ensures i + StepLen(s, r, i) <= |s|
    ensures ReplaceFrom(s, r, i) == StepOut(s, r, i) + ReplaceFrom(s, r, i + StepLen(s, r, i))
  {
  }

  /** The input seen as the scanner cuts it: single characters the rule does
      not match at, and matched runs with their replacements. */
  datatype Piece = Kept(at: nat, c: char) | Swapped(at: nat, text: string, out: string)

  /** What a piece reads, and what it writes. */
  function In(p: Piece): string {
    match p case Kept(_, c) => [c] case Swapped(_, t, _) => t
  }

  function Out(p: Piece): string {
    match p case Kept(_, c) => [c] case Swapped(_, _, o) => o
  }

  function Inputs(ps: seq<Piece>): string {
    if ps == [] then [] else In(ps[0]) + Inputs(ps[1..])
  }

  function Outputs(ps: seq<Piece>): string {
    if ps == [] then [] else Out(ps[0]) + Outputs(ps[1..])
  }

  /** The piece is what the scanner sees at its position in `s`. */
  predicate Faithful(s: string, r: Rule, p: Piece) {
    match p
    case Kept(at, c) => at < |s| && s[at] == c && !HitsAt(s, r, at)
    case Swapped(at, t, o) =>
      HitsAt(s, r, at) && t == s[at..at + r(s, at).value.len] && o == r(s, at).value.out
  }

  function PiecesFrom(s: string, r: Rule, i: nat): (ps: seq<Piece>)
    requires i <= |s|
    ensures forall k | 0 <= k < |ps| :: Faithful(s, r, ps[k])
    decreases |s| - i
  {
    if i == |s| then []
    else if HitsAt(s, r, i) then
      [Swapped(i, s[i..i + r(s, i).value.len], r(s, i).value.out)] + PiecesFrom(s, r, i + r(s, i).value.len)
    else
      [Kept(i, s[i])] + PiecesFrom(s, r, i + 1)
  }

  /** Spelling distributes over a leading piece. */
  lemma SpellCons(p: Piece, q: seq<Piece>)
    ensures Inputs([p] + q) == In(p) + Inputs(q)
    ensures Outputs([p] + q) == Out(p) + Outputs(q)
  {
    assert ([p] + q)[1..] == q;
  }

  /** The first piece at `i` and the pieces after it. */
  lemma PiecesStep(s: string, r: Rule, i: nat) returns (p: Piece, n: nat)
    requires i < |s|
    ensures i + n <= |s| && In(p) == s[i..i + n]
    ensures s[i..] == In(p) + s[i + n..]
    ensures PiecesFrom(s, r, i) == [p] + PiecesFrom(s, r, i + n)
    ensures ReplaceFrom(s, r, i) == Out(p) + ReplaceFrom(s, r, i + n)
  {
    if HitsAt(s, r, i) {
      n := r(s, i).value.len;
      p := Swapped(i, s[i..i + n], r(s, i).value.out);
    } else {
      n := 1;
      p := Kept(i, s[i]);
    }
    assert s[i..] == s[i..i + n] + s[i + n..];
  }

  /** The pieces spell out the input and, replaced, the output. */
  lemma PiecesSpell(s: string, r: Rule, i: nat)
    requires i <= |s|
    ensures Inputs(PiecesFrom(s, r, i)) == s[i..]
    ensures Outputs(PiecesFrom(s, r, i)) == ReplaceFrom(s, r, i)
  {
    PiecesRead(s, r, i);
    PiecesWrite(s, r, i);
  }

  /** The pieces read the input ... */
  lemma {:induction false} PiecesRead(s: string, r: Rule, i: nat)
    requires i <= |s|
    ensures Inputs(PiecesFrom(s, r, i)) == s[i..]
    decreases |s| - i
  {
    if i < |s| {
      var p, n := PiecesStep(s, r, i);
      PiecesRead(s, r, i + n);
      SpellCons(p, PiecesFrom(s, r, i + n));
    }
  }

  /** ... and write what the scan writes. */
  lemma {:induction false} PiecesWrite(s: string, r: Rule, i: nat)
    requires i <= |s|
    ensures Outputs(PiecesFrom(s, r, i)) == ReplaceFrom(s, r, i)
    decreases |s| - i
  {
    if i < |s| {
      var p, n := PiecesStep(s, r, i);
      PiecesWrite(s, r, i + n);
      SpellCons(p, PiecesFrom(s, r, i + n));
    }
  }

  /** `t` is `s` as the scan of `r` writes it, each piece of the scan
      meeting `mark`: characters the rule does not match at are copied, and
      `mark` says what each match becomes. */
  predicate Spells(s: string, r: Rule, t: string, mark: Piece -> bool) {
    var ps := PiecesFrom(s, r, 0);
    Inputs(ps) == s && Outputs(ps) == t && forall k | 0 <= k < |ps| :: mark(ps[k])
  }

  /** Where the rule never matches, replacing changes nothing. */
  lemma {:induction false} ReplaceWithoutHits(s: string, r: Rule, i: nat)
    requires i <= |s|
    requires forall j | i <= j < |s| :: !HitsAt(s, r, j)
    ensures ReplaceFrom(s, r, i) == s[i..]
    decreases |s| - i
  {
    if i < |s| {
      ReplaceWithoutHits(s, r, i + 1);
      assert s[i..] == [s[i]] + s[i + 1..];
    }
  }

  /** A stretch without matches is copied as it is. */
  lemma {:induction false} ReplaceSkipping(s: string, r: Rule, i: nat, p: nat)
    requires i <= p <= |s|
    requires forall j | i <= j < p :: !HitsAt(s, r, j)
    ensures ReplaceFrom(s, r, i) == s[i..p] + ReplaceFrom(s, r, p)
    decreases p - i
  {
    if i < p {
      assert !HitsAt(s, r, i);
      ReplaceSkipping(s, r, i + 1, p);
      calc {
        ReplaceFrom(s, r, i);
        [s[i]] + ReplaceFrom(s, r, i + 1);
        [s[i]] + (s[i + 1..p] + ReplaceFrom(s, r, p));
        ([s[i]] + s[i + 1..p]) + ReplaceFrom(s, r, p);
        { assert s[i..p] == [s[i]] + s[i + 1..p]; }
        s[i..p] + ReplaceFrom(s, r, p);
      }
    }
  }

  /** A property of single characters holds throughout the output when it
      holds of every character the rule leaves in place and of every
      replacement. */
  lemma {:induction false} ReplaceKeepsCharProperty(s: string, r: Rule, i: nat, ok: char -> bool)
    requires i <= |s|
    requires forall j | i <= j < |s| && !HitsAt(s, r, j) :: ok(s[j])
    requires forall j | i <= j < |s| && HitsAt(s, r, j) :: forall c | c in r(s, j).value.out :: ok(c)
    ensures forall c | c in ReplaceFrom(s, r, i) :: ok(c)
    decreases |s| - i
  {
    if i < |s| {
      if HitsAt(s, r, i) {
        ReplaceKeepsCharProperty(s, r, i + r(s, i).value.len, ok);
      } else {
        ReplaceKeepsCharProperty(s, r, i + 1, ok);
      }
    }
  }

  /** A match that covers the whole input is the whole output. */
  lemma ReplaceWhole(s: string, r: Rule)
    requires HitsAt(s, r, 0) && r(s, 0).value.len == |s|
    ensures ReplaceAll(s, r) == r(s, 0).value.out
  {
    assert ReplaceFrom(s, r, |s|) == [];
  }

  /** The rule replaces what it matches at `j` by that same text. */
  predicate Echoes(s: string, r: Rule, j: nat) {
    HitsAt(s, r, j) ==> r(s, j).value.out == s[j..j + r(s, j).value.len]
  }

  /** Where every match is replaced by itself, replacing changes nothing. */
  lemma {:induction false} ReplaceEchoing(s: string, r: Rule, i: nat)
    requires i <= |s|
    requires forall j | i <= j < |s| :: Echoes(s, r, j)
    ensures ReplaceFrom(s, r, i) == s[i..]
    decreases |s| - i
  {
    if i < |s| {
      assert Echoes(s, r, i);
      if HitsAt(s, r, i) {
        ReplaceEchoing(s, r, i + r(s, i).value.len);
        EchoHitStep(s, r, i);
      } else {
        ReplaceEchoing(s, r, i + 1);
        EchoMissStep(s, r, i);
      }
    }
  }

  /** A match replaced by itself, then the rest unchanged. */
  lemma EchoHitStep(s: string, r: Rule, i: nat)
    requires HitsAt(s, r, i) && Echoes(s, r, i)
    requires ReplaceFrom(s, r, i + r(s, i).value.len) == s[i + r(s, i).value.len..]
    ensures ReplaceFrom(s, r, i) == s[i..]
  {
    var n := r(s, i).value.len;
    ReplaceAtHit(s, r, i);
    assert s[i..] == s[i..i + n] + s[i + n..];
  }

  /** A character kept, then the rest unchanged. */
  lemma EchoMissStep(s: string, r: Rule, i: nat)
    requires i < |s| && !HitsAt(s, r, i)
    requires ReplaceFrom(s, r, i + 1) == s[i + 1..]
    ensures ReplaceFrom(s, r, i) == s[i..]
  {
    ReplaceAtMiss(s, r, i);
    assert s[i..] == [s[i]] + s[i + 1..];
  }

  lemma {:induction false} ReplaceFromHead(s: string, r: Rule, i: nat)
    requires i < |s|
    ensures !HitsAt(s, r, i) ==> ReplaceFrom(s, r, i)[0] == s[i]
    ensures HitsAt(s, r, i) && r(s, i).value.out != [] ==> ReplaceFrom(s, r, i)[0] == r(s, i).value.out[0]
  {
  }

  // ---------------------------------------------------------------------
  // Neighbouring characters

  /** No two neighbouring characters of `t` form a `bad` pair. */
  predicate PairFree(t: string, bad: (char, char) -> bool) {
    forall k | 0 <= k < |t| - 1 :: !bad(t[k], t[k + 1])
  }

  /** No character forms a `bad` pair with `c` on its left, */
  predicate FreeAfter(c: char, bad: (char, char) -> bool) {
    forall x :: !bad(c, x)
  }

  /** ... or on its right. */
  predicate FreeBefore(c: char, bad: (char, char) -> bool) {
    forall x :: !bad(x, c)
  }

  lemma PairFreeAppend(a: string, b: string, bad: (char, char) -> bool)
    requires PairFree(a, bad) && PairFree(b, bad)
    requires a != [] && b != [] ==> !bad(a[|a| - 1], b[0])
    ensures PairFree(a + b, bad)
  {
    var t := a + b;
    forall k | 0 <= k < |t| - 1 ensures !bad(t[k], t[k + 1]) {
      if k + 1 < |a| {
        assert t[k] == a[k] && t[k + 1] == a[k + 1];
      } else if k >= |a| {
        assert t[k] == b[k - |a|] && t[k + 1] == b[k + 1 - |a|];
      }
    }
  }

  lemma PairFreeSlice(s: string, a: nat, b: nat, bad: (char, char) -> bool)
    requires a <= b <= |s| && PairFree(s, bad)
    ensures PairFree(s[a..b], bad)
  {
    var t := s[a..b];
    forall k | 0 <= k < |t| - 1 ensures !bad(t[k], t[k + 1]) {
      assert t[k] == s[a + k] && t[k + 1] == s[a + k + 1];
    }
  }

  /** A rule that always starts its replacement with the character it
      matched at leaves the first character of a text in place. */
  lemma ReplaceKeepsHead(s: string, r: Rule)
    requires s != []
    requires HitsAt(s, r, 0) ==> r(s, 0).value.out != [] && r(s, 0).value.out[0] == s[0]
    ensures ReplaceAll(s, r) != [] && ReplaceAll(s, r)[0] == s[0]
  {
    ReplaceFromHead(s, r, 0);
  }

  /** A match whose replacement keeps a text free of `bad` pairs: it is free
      of them itself, and at each end it either repeats the matched text's
      end character or is a character that forms no pair on that side. */
  predicate HitFits(s: string, r: Rule, j: nat, bad: (char, char) -> bool) {
    HitsAt(s, r, j) ==>
      var o := r(s, j).value.out;
      var e := j + r(s, j).value.len;
      && o != [] && PairFree(o, bad)
      && (o[0] == s[j] || FreeBefore(o[0], bad))
      && (o[|o| - 1] == s[e - 1] || FreeAfter(o[|o| - 1], bad))
  }

  /** The first character of a replacement from `i` on either is the input
      character at `i` or forms no pair on its right. */
  predicate HeadFits(s: string, t: string, i: nat, bad: (char, char) -> bool) {
    i < |s| ==> t != [] && (t[0] == s[i] || FreeBefore(t[0], bad))
  }

  /** A replacement all of whose matches fit keeps a text free of `bad` pairs. */
  lemma {:induction false} ReplaceKeepsPairFree(s: string, r: Rule, i: nat, bad: (char, char) -> bool)
    requires i <= |s| && PairFree(s, bad)
    requires forall j | i <= j < |s| :: HitFits(s, r, j, bad)
    ensures PairFree(ReplaceFrom(s, r, i), bad)
    ensures HeadFits(s, ReplaceFrom(s, r, i), i, bad)
    decreases |s| - i
  {
    if i < |s| {
      assert HitFits(s, r, i, bad);
      var e := if HitsAt(s, r, i) then i + r(s, i).value.len else i + 1;
      var o := if HitsAt(s, r, i) then r(s, i).value.out else [s[i]];
      ReplaceKeepsPairFree(s, r, e, bad);
      var t := ReplaceFrom(s, r, e);
      assert ReplaceFrom(s, r, i) == o + t;
      if o != [] && t != [] {
        assert e < |s| && (t[0] == s[e] || FreeBefore(t[0], bad));
        assert o[|o| - 1] == s[e - 1] || FreeAfter(o[|o| - 1], bad);
        assert !bad(s[e - 1], s[e]);
      }
      PairFreeAppend(o, t, bad);
    }
  }

  /** A replacement that matches exactly where a `bad` pair starts, keeps the
      first character of the match and ends in a character that forms no
      pair, leaves no `bad` pair behind. */
  lemma {:induction false} ReplaceBreaksPairs(s: string, r: Rule, i: nat, bad: (char, char) -> bool)
    requires i <= |s|
    requires forall j | i <= j < |s| :: HitsAt(s, r, j) <==> j + 1 < |s| && bad(s[j], s[j + 1])
    requires forall j | i <= j < |s| && HitsAt(s, r, j) ::
      var o := r(s, j).value.out;
      o != [] && o[0] == s[j] && PairFree(o, bad) && FreeAfter(o[|o| - 1], bad)
    ensures PairFree(ReplaceFrom(s, r, i), bad)
    ensures i < |s| ==> ReplaceFrom(s, r, i) != [] && ReplaceFrom(s, r, i)[0] == s[i]
    decreases |s| - i
  {
    if i < |s| {
      var e := if HitsAt(s, r, i) then i + r(s, i).value.len else i + 1;
      var o := if HitsAt(s, r, i) then r(s, i).value.out else [s[i]];
      ReplaceBreaksPairs(s, r, e, bad);
      var t := ReplaceFrom(s, r, e);
      assert ReplaceFrom(s, r, i) == o + t;
      PairFreeAppend(o, t, bad);
    }
  }

  /** A stretch without matches, then a match. */
  lemma ReplaceThroughHit(t: string, r: Rule, i: nat, p: nat)
    requires i <= p <= |t|
    requires forall j | i <= j < p :: !HitsAt(t, r, j)
    requires HitsAt(t, r, p)
    ensures ReplaceFrom(t, r, i) == t[i..p] + r(t, p).value.out + ReplaceFrom(t, r, p + r(t, p).value.len)
  {
    ReplaceSkipping(t, r, i, p);
    ReplaceAtHit(t, r, p);
  }

  lemma ThreeSlices(a: string, m: string, c: string)
    ensures (a + m + c)[0..|a|] == a
    ensures (a + m + c)[|a| + |m|..] == c
  {
  }

  /** Text `a + m + c` in which the rule matches only `m`, read from the
      start, becomes `a + o + c`. */
  lemma ReplaceOneHit(a: string, m: string, c: string, r: Rule, o: string)
    requires forall j | 0 <= j < |a + m + c| && (j < |a| || |a + m| <= j) :: !HitsAt(a + m + c, r, j)
    requires 0 < |m| && r(a + m + c, |a|) == Some(Hit(|m|, o))
    ensures ReplaceAll(a + m + c, r) == a + o + c
  {
    var t := a + m + c;
    ReplaceThroughHit(t, r, 0, |a|);
    ReplaceWithoutHits(t, r, |a| + |m|);
    ThreeSlices(a, m, c);
  }

  lemma FiveSlices(a: string, m: string, b: string, n: string, c: string)
    ensures (a + m + b + n + c)[0..|a|] == a
    ensures (a + m + b + n + c)[|a + m|..|a + m + b|] == b
    ensures (a + m + b + n + c)[|a + m + b + n|..] == c
  {
    ThreeSlices(a, m, b + n + c);
    ThreeSlices(a + m + b, n, c);
    assert (a + m + b + n + c)[|a + m|..|a + m + b|] == (a + m + b)[|a + m|..];
  }

  /** The same with two matches, `m` and `n`. */
  lemma ReplaceTwoHits(a: string, m: string, b: string, n: string, c: string, r: Rule, o: string, p: string)
    requires var t := a + m + b + n + c;
      forall j | 0 <= j < |t| && (j < |a| || |a + m| <= j < |a + m + b| || |a + m + b + n| <= j) :: !HitsAt(t, r, j)
    requires 0 < |m| && r(a + m + b + n + c, |a|) == Some(Hit(|m|, o))
    requires 0 < |n| && r(a + m + b + n + c, |a + m + b|) == Some(Hit(|n|, p))
    ensures ReplaceAll(a + m + b + n + c, r) == a + o + b + p + c
  {
    var t := a + m + b + n + c;
    ReplaceThroughHit(t, r, 0, |a|);
    ReplaceThroughHit(t, r, |a + m|, |a + m + b|);
    ReplaceWithoutHits(t, r, |a + m + b + n|);
    FiveSlices(a, m, b, n, c);
    calc {
      ReplaceAll(t, r);
      a + o + (b + p + c);
      { AppendAssoc(a + o, b + p, c); AppendAssoc(a + o, b, p); }
      a + o + b + p + c;
    }
  }
}
