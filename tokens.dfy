/**
 * Numbered tokens that stand in for protected text. Two services swap each
 * match of a pattern for `<prefix><n>__`, pushing the matched text onto a
 * list inside the `replace` callback (`__MATH_PLACEHOLDER_n__` in the Lambda
 * client, `__MATH_EXPRESSION_n__` in the API service), and later look each
 * token up in that list again by `parseInt` of its digits.
 */
module Tokens {
  import opened Wrappers
  import opened Text
  import opened Scan

  /** The tokens of the Lambda client's chunker, which the API service also
      expects to find in its input. */
  const PlaceholderPrefix: string := "__MATH_PLACEHOLDER_"

  /** The tokens of the API service's own protection step. */
  const ExpressionPrefix: string := "__MATH_EXPRESSION_"

  /** `${prefix}${n}__` */
  function Token(prefix: string, n: nat): string {
    prefix + NatToString(n) + "__"
  }

  /** The text with the matches of `r`, counted from `n`, replaced by
      tokens, from position `i` on. */
  function ProtectFrom(s: string, r: Rule, prefix: string, i: nat, n: nat): string
    requires i <= |s|
    decreases |s| - i
  {
    if i == |s| then []
    else if HitsAt(s, r, i) then Token(prefix, n) + ProtectFrom(s, r, prefix, i + r(s, i).value.len, n + 1)
    else [s[i]] + ProtectFrom(s, r, prefix, i + 1, n)
  }

  lemma AppendAssoc(a: string, b: string, c: string)
    ensures a + b + c == a + (b + c)
  {
  }

  lemma ChunksAssoc(a: seq<string>, b: seq<string>, c: seq<string>)
    ensures a + b + c == a + (b + c)
  {
  }

  /** What `Protect` has done after reading `s[..i]`: the text and the list,
      followed by what is still to come, make up the whole result. */
  predicate ProtectedUpTo(s: string, r: Rule, prefix: string, i: nat, text: string, blocks: seq<string>) {
    && i <= |s|
    && text + ProtectFrom(s, r, prefix, i, |blocks|) == ProtectFrom(s, r, prefix, 0, 0)
    && blocks + MatchesFrom(s, r, i) == MatchesFrom(s, r, 0)
  }

  /** One step of `Protect` at a match ... */
  lemma ProtectHit(s: string, r: Rule, prefix: string, i: nat, n: nat, text: string, blocks: seq<string>)
    requires HitsAt(s, r, i) && n == r(s, i).value.len
    requires ProtectedUpTo(s, r, prefix, i, text, blocks)
    ensures ProtectedUpTo(s, r, prefix, i + n, text + Token(prefix, |blocks|), blocks + [s[i..i + n]])
  {
    AppendAssoc(text, Token(prefix, |blocks|), ProtectFrom(s, r, prefix, i + n, |blocks| + 1));
    ChunksAssoc(blocks, [s[i..i + n]], MatchesFrom(s, r, i + n));
  }

  /** ... and at a character outside one. */
  lemma ProtectKept(s: string, r: Rule, prefix: string, i: nat, text: string, blocks: seq<string>)
    requires i < |s| && !HitsAt(s, r, i)
    requires ProtectedUpTo(s, r, prefix, i, text, blocks)
    ensures ProtectedUpTo(s, r, prefix, i + 1, text + [s[i]], blocks)
  {
    AppendAssoc(text, [s[i]], ProtectFrom(s, r, prefix, i + 1, |blocks|));
  }

  /** The protecting `replace`, whose callback pushes every match onto the
      list and returns a token numbered by its position there. */
  method Protect(s: string, r: Rule, prefix: string) returns (text: string, blocks: seq<string>)
    ensures text == ProtectFrom(s, r, prefix, 0, 0)
    ensures blocks == MatchesFrom(s, r, 0)
  {
    text, blocks := [], [];
    var i: nat := 0;
    while i < |s|
      invariant ProtectedUpTo(s, r, prefix, i, text, blocks)
      decreases |s| - i
    {
      if HitsAt(s, r, i) {
        var n := r(s, i).value.len;
        ProtectHit(s, r, prefix, i, n, text, blocks);
        text, blocks, i := text + Token(prefix, |blocks|), blocks + [s[i..i + n]], i + n;
      } else {
        ProtectKept(s, r, prefix, i, text, blocks);
        text, i := text + [s[i]], i + 1;
      }
    }
  }

  /** `blocks[n]`, which is `undefined` past the end and then printed so. */
  function BlockOrUndefined(blocks: seq<string>, n: nat): string {
    if n < |blocks| then blocks[n] else "undefined"
  }

  /** `${prefix}(\d+)__` at `i`, replaced by `value` of its `parseInt`. */
  function TokenAt(prefix: string, value: nat -> string, s: string, i: nat): (h: Option<Hit>)
    ensures h.Some? ==> At(s, i, prefix) && i + |prefix| + 3 <= i + h.value.len <= |s|
  {
    if At(s, i, prefix) then
      var d := DigitEnd(s, i + |prefix|);
      if d > i + |prefix| && At(s, d, "__") then
        Some(Hit(d + 2 - i, value(DigitsValue(s[i + |prefix|..d]))))
      else None
    else None
  }

  function TokenRule(prefix: string, value: nat -> string): Rule {
    (s: string, i: nat) => TokenAt(prefix, value, s, i)
  }

  /** A token alone is replaced by the value of its number. */
  lemma ReplaceToken(prefix: string, value: nat -> string, n: nat)
    ensures ReplaceAll(Token(prefix, n), TokenRule(prefix, value)) == value(n)
  {
    var p := Token(prefix, n);
    var m := |prefix|;
    var digits := NatToString(n);
    assert p[m..m + |digits|] == digits;
    assert forall k | m <= k < m + |digits| :: IsDigit(p[k]);
    assert p[m + |digits|] == '_';
    assert DigitEnd(p, m) == m + |digits|;
    DigitsValueOfNatToString(n);
    var r := TokenRule(prefix, value);
    assert r(p, 0).value.len == |p|;
    assert ReplaceFrom(p, r, |p|) == [];
  }

  /** The lookup of the restoring `replace`. */
  function BlockLookup(blocks: seq<string>): nat -> string {
    (n: nat) => BlockOrUndefined(blocks, n)
  }

  /** The restoring `replace`. */
  function Restore(prefix: string, blocks: seq<string>, text: string): string {
    ReplaceAll(text, TokenRule(prefix, BlockLookup(blocks)))
  }

  /** A token alone comes back as the block it numbers. */
  lemma RestoreToken(prefix: string, blocks: seq<string>, n: nat)
    ensures Restore(prefix, blocks, Token(prefix, n)) == BlockOrUndefined(blocks, n)
  {
    ReplaceToken(prefix, BlockLookup(blocks), n);
  }

  // ---------------------------------------------------------------------
  // Restoring what was protected

  /** A character no token reads through: it is not in the prefix, not a
      digit and not `_`. */
  predicate Barrier(prefix: string, c: char) {
    c !in prefix && !IsDigit(c) && c != '_'
  }

  /** The text ends at `k` or a barrier stands there. */
  predicate Closes(prefix: string, s: string, k: nat) {
    k == |s| || (k < |s| && Barrier(prefix, s[k]))
  }

  /** `lit`, made of characters that are not barriers, cannot run past a
      closing position. */
  lemma NotAtPastClose(prefix: string, s: string, j: nat, k: nat, lit: string)
    requires j <= k < j + |lit| && k <= |s| && Closes(prefix, s, k)
    requires forall c | c in lit :: !Barrier(prefix, c)
    ensures !At(s, j, lit)
  {
    if j + |lit| <= |s| {
      assert s[j..j + |lit|][k - j] == s[k];
      assert lit[k - j] in lit;
    }
  }

  /** Equal windows have equal pieces at equal offsets. */
  lemma SliceWindow(x: string, jx: nat, kx: nat, z: string, jz: nat, kz: nat, a: nat, b: nat)
    requires jx <= kx <= |x| && jz <= kz <= |z| && x[jx..kx] == z[jz..kz]
    requires a <= b <= kx - jx
    ensures x[jx + a..jx + b] == z[jz + a..jz + b]
  {
    var u, w := x[jx + a..jx + b], z[jz + a..jz + b];
    forall t | 0 <= t < |u| ensures u[t] == w[t] {
      assert x[jx..kx][a + t] == z[jz..kz][a + t];
    }
  }

  /** Two equal windows that both close see, at offset `o`, the same
      occurrences of a `lit` made of characters that are not barriers. */
  lemma AtWindow(prefix: string, x: string, jx: nat, kx: nat, z: string, jz: nat, kz: nat, o: nat, lit: string)
    requires jx <= kx <= |x| && jz <= kz <= |z| && x[jx..kx] == z[jz..kz]
    requires Closes(prefix, x, kx) && Closes(prefix, z, kz) && o <= kx - jx
    requires forall c | c in lit :: !Barrier(prefix, c)
    ensures At(x, jx + o, lit) == At(z, jz + o, lit)
    ensures At(x, jx + o, lit) ==> jx + o + |lit| <= kx
  {
    if jx + o + |lit| <= kx {
      SliceWindow(x, jx, kx, z, jz, kz, o, o + |lit|);
    } else {
      NotAtPastClose(prefix, x, jx + o, kx, lit);
      NotAtPastClose(prefix, z, jz + o, kz, lit);
    }
  }

  /** A run of digits stops at or before a non-digit. */
  lemma DigitEndBefore(s: string, a: nat, k: nat)
    requires a <= k <= |s| && (k == |s| || !IsDigit(s[k]))
    ensures DigitEnd(s, a) <= k
  {
  }

  /** The run of digits ends exactly where the digits stop. */
  lemma DigitEndAt(s: string, a: nat, e: nat)
    requires a <= e <= |s| && (forall k | a <= k < e :: IsDigit(s[k]))
    requires e == |s| || !IsDigit(s[e])
    ensures DigitEnd(s, a) == e
  {
  }

  /** Two equal windows that both close hold, at offset `o`, runs of digits
      of one length. */
  lemma DigitWindow(prefix: string, x: string, jx: nat, kx: nat, z: string, jz: nat, kz: nat, o: nat)
    requires jx <= kx <= |x| && jz <= kz <= |z| && x[jx..kx] == z[jz..kz]
    requires Closes(prefix, x, kx) && Closes(prefix, z, kz) && o <= kx - jx
    ensures DigitEnd(x, jx + o) <= kx
    ensures DigitEnd(x, jx + o) - jx == DigitEnd(z, jz + o) - jz
  {
    DigitEndBefore(x, jx + o, kx);
    var ex := DigitEnd(x, jx + o);
    var ez := jz + (ex - jx);
    forall k | jz + o <= k < ez ensures IsDigit(z[k]) {
      assert z[k] == z[jz..kz][k - jz] == x[jx..kx][k - jz] == x[jx + (k - jz)];
    }
    if ex < kx {
      assert z[ez] == z[jz..kz][ex - jx] == x[jx..kx][ex - jx] == x[ex];
    }
    DigitEndAt(z, jz + o, ez);
  }

  /** Two equal windows that both close see the same token at their start. */
  lemma TokenWindow(prefix: string, value: nat -> string, x: string, jx: nat, kx: nat, z: string, jz: nat, kz: nat)
    requires jx <= kx <= |x| && jz <= kz <= |z| && x[jx..kx] == z[jz..kz]
    requires Closes(prefix, x, kx) && Closes(prefix, z, kz)
    ensures TokenAt(prefix, value, x, jx) == TokenAt(prefix, value, z, jz)
  {
    AtWindow(prefix, x, jx, kx, z, jz, kz, 0, prefix);
    if At(x, jx, prefix) {
      TokenBodyWindow(prefix, x, jx, kx, z, jz, kz);
      TokenAgree(prefix, value, x, jx, z, jz);
    }
  }

  /** Past a prefix inside two such windows, the digits and the closing `__` agree. */
  lemma TokenBodyWindow(prefix: string, x: string, jx: nat, kx: nat, z: string, jz: nat, kz: nat)
    requires jx <= kx <= |x| && jz <= kz <= |z| && x[jx..kx] == z[jz..kz]
    requires Closes(prefix, x, kx) && Closes(prefix, z, kz) && jx + |prefix| <= kx
    ensures var dx, dz := DigitEnd(x, jx + |prefix|), DigitEnd(z, jz + |prefix|);
      && dx - jx == dz - jz
      && At(x, dx, "__") == At(z, dz, "__")
      && x[jx + |prefix|..dx] == z[jz + |prefix|..dz]
  {
    var m := |prefix|;
    DigitWindow(prefix, x, jx, kx, z, jz, kz, m);
    var e := DigitEnd(x, jx + m) - jx;
    AtWindow(prefix, x, jx, kx, z, jz, kz, e, "__");
    SliceWindow(x, jx, kx, z, jz, kz, m, e);
  }

  /** Tokens read alike when their prefixes, digits and closing `__` do. */
  lemma TokenAgree(prefix: string, value: nat -> string, x: string, jx: nat, z: string, jz: nat)
    requires At(x, jx, prefix) && At(z, jz, prefix)
    requires var dx, dz := DigitEnd(x, jx + |prefix|), DigitEnd(z, jz + |prefix|);
      && dx - jx == dz - jz
      && At(x, dx, "__") == At(z, dz, "__")
      && x[jx + |prefix|..dx] == z[jz + |prefix|..dz]
    ensures TokenAt(prefix, value, x, jx) == TokenAt(prefix, value, z, jz)
  {
  }

  /** A token followed by anything is read whole, as its number. */
  lemma TokenFront(prefix: string, value: nat -> string, n: nat, rest: string)
    ensures TokenAt(prefix, value, Token(prefix, n) + rest, 0) == Some(Hit(|Token(prefix, n)|, value(n)))
  {
    var p := Token(prefix, n) + rest;
    var m := |prefix|;
    var digits := NatToString(n);
    assert p[..m] == prefix;
    assert p[m..m + |digits|] == digits;
    assert p[m + |digits|..m + |digits| + 2] == "__";
    DigitEndAt(p, m, m + |digits|);
    DigitsValueOfNatToString(n);
  }

  /** Past a head, tokens are read as in what follows it. */
  lemma TokensPastHead(prefix: string, value: nat -> string, x: string, y: string)
    ensures var r := TokenRule(prefix, value);
      forall j | |x| <= j <= |x + y| :: r(x + y, j) == r(y, j - |x|)
  {
    var r := TokenRule(prefix, value);
    forall j | |x| <= j <= |x + y| ensures r(x + y, j) == r(y, j - |x|) {
      assert (x + y)[j..] == y[j - |x|..];
      TokenWindow(prefix, value, x + y, j, |x + y|, y, j - |x|, |y|);
    }
  }

  /** Restoring from after a head reads only what follows it. */
  lemma RestoreShift(prefix: string, value: nat -> string, x: string, y: string)
    ensures ReplaceFrom(x + y, TokenRule(prefix, value), |x|) == ReplaceAll(y, TokenRule(prefix, value))
  {
    TokensPastHead(prefix, value, x, y);
    ReplaceSuffix(x + y, y, TokenRule(prefix, value), |x|, |x|);
  }

  /** The seam between two texts that no token can straddle. */
  predicate Seam(prefix: string, x: string, y: string) {
    x == [] || y == [] || Barrier(prefix, x[|x| - 1]) || Barrier(prefix, y[0])
  }

  /** Restoring distributes over a concatenation at a barrier. */
  lemma RestoreSplit(prefix: string, value: nat -> string, x: string, y: string)
    requires Seam(prefix, x, y)
    ensures ReplaceAll(x + y, TokenRule(prefix, value)) ==
      ReplaceAll(x, TokenRule(prefix, value)) + ReplaceAll(y, TokenRule(prefix, value))
  {
    var r := TokenRule(prefix, value);
    var e := if y == [] || Barrier(prefix, y[0]) then |x| else |x| - 1;
    forall k | 0 <= k < |x| ensures r(x + y, k) == r(x, k) {
      assert (x + y)[k..e] == x[k..e];
      TokenWindow(prefix, value, x + y, k, e, x, k, e);
    }
    ReplaceSplit(x, y, r, 0);
    RestoreShift(prefix, value, x, y);
  }

  /** What `Protect` writes from `i` up to the next match is the input itself. */
  lemma {:induction false} ProtectSkipping(s: string, r: Rule, prefix: string, i: nat, q: nat, n: nat)
    requires i <= q <= |s|
    requires forall j | i <= j < q :: !HitsAt(s, r, j)
    ensures ProtectFrom(s, r, prefix, i, n) == s[i..q] + ProtectFrom(s, r, prefix, q, n)
    decreases q - i
  {
    if i < q {
      ProtectSkipping(s, r, prefix, i + 1, q, n);
      calc {
        ProtectFrom(s, r, prefix, i, n);
        [s[i]] + ProtectFrom(s, r, prefix, i + 1, n);
        [s[i]] + (s[i + 1..q] + ProtectFrom(s, r, prefix, q, n));
        { assert s[i..q] == [s[i]] + s[i + 1..q]; }
        s[i..q] + ProtectFrom(s, r, prefix, q, n);
      }
    }
  }

  /** A text that starts with `s[i..q]`, long enough, has `p` at its start
      exactly when `s` has it at `i`. */
  lemma AtHeadOf(s: string, i: nat, q: nat, tail: string, p: string)
    requires i <= q <= |s| && |p| <= q - i
    ensures At(s[i..q] + tail, 0, p) == At(s, i, p)
  {
    assert (s[i..q] + tail)[..|p|] == s[i..i + |p|];
  }

  /** Where the input holds no prefix and the rule does not match, the
      protected text does not start with a token. */
  lemma ProtectedHead(s: string, r: Rule, prefix: string, i: nat, n: nat, value: nat -> string)
    requires i < |s| && !HitsAt(s, r, i) && !At(s, i, prefix)
    requires forall c | c in prefix :: !IsDigit(c)
    ensures TokenAt(prefix, value, ProtectFrom(s, r, prefix, i, n), 0).None?
  {
    var k := FirstHit(s, r, i);
    var q := if k.Some? then k.value else |s|;
    ProtectSkipping(s, r, prefix, i, q, n);
    HeadBeforeHit(s, r, prefix, i, q, n);
    NoTokenStart(prefix, value, ProtectFrom(s, r, prefix, i, n));
  }

  /** Text kept before the next match, followed by that match's token,
      holds no prefix followed by a digit at its start. */
  lemma HeadBeforeHit(s: string, r: Rule, prefix: string, i: nat, q: nat, n: nat)
    requires i < q <= |s| && !At(s, i, prefix) && (q == |s| || HitsAt(s, r, q))
    requires forall c | c in prefix :: !IsDigit(c)
    ensures var x := s[i..q] + ProtectFrom(s, r, prefix, q, n);
      !At(x, 0, prefix) || (|prefix| < |x| && !IsDigit(x[|prefix|]))
  {
    var m := |prefix|;
    var tail := ProtectFrom(s, r, prefix, q, n);
    var x := s[i..q] + tail;
    if m <= q - i {
      AtHeadOf(s, i, q, tail, prefix);
    } else if q < |s| {
      var rest := ProtectFrom(s, r, prefix, q + r(s, q).value.len, n + 1);
      assert tail == Token(prefix, n) + rest;
      assert x[m] == tail[m - (q - i)] == prefix[m - (q - i)];
      assert prefix[m - (q - i)] in prefix;
    }
  }

  /** No token starts where the prefix is missing or no digit follows it. */
  lemma NoTokenStart(prefix: string, value: nat -> string, x: string)
    requires !At(x, 0, prefix) || (|prefix| < |x| && !IsDigit(x[|prefix|]))
    ensures TokenAt(prefix, value, x, 0).None?
  {
    if At(x, 0, prefix) {
      DigitEndAt(x, |prefix|, |prefix|);
    }
  }

  /** Restoring what `Protect` wrote from `i` on, with the list holding the
      matches from `i` at `n`, gives back the input from `i`. */
  lemma {:induction false} RestoresFrom(s: string, r: Rule, prefix: string, blocks: seq<string>, i: nat, n: nat)
    requires i <= |s| && n <= |blocks| && blocks[n..] == MatchesFrom(s, r, i)
    requires forall c | c in prefix :: !IsDigit(c)
    requires forall j | i <= j <= |s| :: !At(s, j, prefix)
    ensures Restore(prefix, blocks, ProtectFrom(s, r, prefix, i, n)) == s[i..]
    decreases |s| - i
  {
    if i < |s| {
      if HitsAt(s, r, i) {
        var e := i + r(s, i).value.len;
        assert blocks[n..] == [s[i..e]] + MatchesFrom(s, r, e);
        assert blocks[n] == blocks[n..][0];
        assert blocks[n + 1..] == blocks[n..][1..];
        RestoresFrom(s, r, prefix, blocks, e, n + 1);
        RestoreHitStep(s, r, prefix, blocks, i, n, e);
      } else {
        RestoresFrom(s, r, prefix, blocks, i + 1, n);
        RestoreKeptStep(s, r, prefix, blocks, i, n);
      }
    }
  }

  /** At a match, `Protect` writes the token numbered `n`. */
  lemma ProtectAtHit(s: string, r: Rule, prefix: string, i: nat, n: nat)
    requires HitsAt(s, r, i)
    ensures ProtectFrom(s, r, prefix, i, n) ==
      Token(prefix, n) + ProtectFrom(s, r, prefix, i + r(s, i).value.len, n + 1)
  {
  }

  /** A token at the head of a text comes back as the block it numbers. */
  lemma RestoreHead(prefix: string, blocks: seq<string>, n: nat, rest: string)
    ensures Restore(prefix, blocks, Token(prefix, n) + rest) ==
      BlockOrUndefined(blocks, n) + Restore(prefix, blocks, rest)
  {
    var lookup := BlockLookup(blocks);
    var head := Token(prefix, n);
    TokenFront(prefix, lookup, n, rest);
    ReplaceLeadingHit(head + rest, TokenRule(prefix, lookup), |head|, lookup(n));
    RestoreShift(prefix, lookup, head, rest);
  }

  /** A character where no token starts comes back as itself. */
  lemma RestoreKeptHead(prefix: string, blocks: seq<string>, c: char, rest: string)
    requires TokenAt(prefix, BlockLookup(blocks), [c] + rest, 0).None?
    ensures Restore(prefix, blocks, [c] + rest) == [c] + Restore(prefix, blocks, rest)
  {
    var lookup := BlockLookup(blocks);
    ReplaceLeadingMiss([c] + rest, TokenRule(prefix, lookup));
    RestoreShift(prefix, lookup, [c], rest);
  }

  /** A match comes back from its token, the rest from what follows it. */
  lemma RestoreHitStep(s: string, r: Rule, prefix: string, blocks: seq<string>, i: nat, n: nat, e: nat)
    requires HitsAt(s, r, i) && e == i + r(s, i).value.len
    requires n < |blocks| && blocks[n] == s[i..e]
    requires Restore(prefix, blocks, ProtectFrom(s, r, prefix, e, n + 1)) == s[e..]
    ensures Restore(prefix, blocks, ProtectFrom(s, r, prefix, i, n)) == s[i..]
  {
    ProtectAtHit(s, r, prefix, i, n);
    RestoreHead(prefix, blocks, n, ProtectFrom(s, r, prefix, e, n + 1));
    assert s[i..] == s[i..e] + s[e..];
  }

  /** A kept character comes back as itself, the rest from what follows it. */
  lemma RestoreKeptStep(s: string, r: Rule, prefix: string, blocks: seq<string>, i: nat, n: nat)
    requires i < |s| && !HitsAt(s, r, i) && !At(s, i, prefix)
    requires forall c | c in prefix :: !IsDigit(c)
    requires Restore(prefix, blocks, ProtectFrom(s, r, prefix, i + 1, n)) == s[i + 1..]
    ensures Restore(prefix, blocks, ProtectFrom(s, r, prefix, i, n)) == s[i..]
  {
    ProtectedHead(s, r, prefix, i, n, BlockLookup(blocks));
    assert ProtectFrom(s, r, prefix, i, n) == [s[i]] + ProtectFrom(s, r, prefix, i + 1, n);
    RestoreKeptHead(prefix, blocks, s[i], ProtectFrom(s, r, prefix, i + 1, n));
    assert s[i..] == [s[i]] + s[i + 1..];
  }

  /** The round trip: on an input holding no token prefix, restoring the
      protected text with the list of matches gives back the input, and
      token `k` stands for match `k`. */
  lemma RestoreProtected(s: string, r: Rule, prefix: string)
    requires forall c | c in prefix :: !IsDigit(c)
    requires !Contains(s, prefix)
    ensures Restore(prefix, MatchesFrom(s, r, 0), ProtectFrom(s, r, prefix, 0, 0)) == s
    ensures var blocks := MatchesFrom(s, r, 0);
      forall k | 0 <= k < |blocks| :: Restore(prefix, blocks, Token(prefix, k)) == blocks[k]
  {
    var blocks := MatchesFrom(s, r, 0);
    RestoresFrom(s, r, prefix, blocks, 0, 0);
    forall k | 0 <= k < |blocks| ensures Restore(prefix, blocks, Token(prefix, k)) == blocks[k] {
      RestoreToken(prefix, blocks, k);
    }
  }
}
