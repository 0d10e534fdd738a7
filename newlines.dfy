/**
 * Runs of line feeds: when a text is free of three consecutive `\n`, and why a
 * global replacement keeps it so.
 */
module Newlines {
  import opened Wrappers
  import opened Text
  import opened Scan

  predicate IsNewline(c: char) { c == '\n' }

  /** No three consecutive line feeds. */
  predicate NoTripleNewline(s: string) { !Contains(s, "\n\n\n") }

  /** The number of line feeds `s` starts with. */
  function LeadNL(s: string): (n: nat)
    ensures n <= |s|
    ensures forall k | 0 <= k < n :: s[k] == '\n'
    ensures n == |s| || s[n] != '\n'
  {
    RunEnd(s, 0, IsNewline)
  }

  /** The number of line feeds `s` ends with. */
  function TrailNL(s: string): (n: nat)
    ensures n <= |s|
    ensures forall k | |s| - n <= k < |s| :: s[k] == '\n'
    ensures n == |s| || s[|s| - n - 1] != '\n'
  {
    if s == [] || s[|s| - 1] != '\n' then 0
    else
      var n := TrailNL(s[..|s| - 1]);
      assert forall k | |s| - 1 - n <= k < |s| - 1 :: s[..|s| - 1][k] == s[k];
      n + 1
  }

  lemma LeadNLAppend(a: string, b: string)
    ensures LeadNL(a) < |a| ==> LeadNL(a + b) == LeadNL(a)
    ensures LeadNL(a) == |a| ==> LeadNL(a + b) == |a| + LeadNL(b)
  {
    var n := LeadNL(a + b);
    if LeadNL(a) < |a| {
      assert (a + b)[LeadNL(a)] == a[LeadNL(a)];
    } else {
      assert forall k | 0 <= k < |a| :: (a + b)[k] == '\n';
      assert forall k | 0 <= k < LeadNL(b) :: (a + b)[|a| + k] == b[k];
      if |a| + LeadNL(b) < |a + b| {
        assert (a + b)[|a| + LeadNL(b)] == b[LeadNL(b)];
      }
    }
  }

  lemma TrailNLAppend(a: string, b: string)
    ensures TrailNL(b) < |b| ==> TrailNL(a + b) == TrailNL(b)
    ensures TrailNL(b) == |b| ==> TrailNL(a + b) == TrailNL(a) + |b|
  {
    var ab := a + b;
    if TrailNL(b) < |b| {
      assert ab[|ab| - TrailNL(b) - 1] == b[|b| - TrailNL(b) - 1];
      assert forall k | |ab| - TrailNL(b) <= k < |ab| :: ab[k] == b[k - |a|];
    } else {
      assert forall k | |a| <= k < |ab| :: ab[k] == '\n';
      assert forall k | |a| - TrailNL(a) <= k < |a| :: ab[k] == a[k];
      if TrailNL(a) < |a| {
        assert ab[|a| - TrailNL(a) - 1] == a[|a| - TrailNL(a) - 1];
      }
    }
  }

  lemma SliceOfSlice(s: string, a: nat, b: nat, k: nat, n: nat)
    requires a <= b <= |s| && k + n <= b - a
    ensures s[a..b][k..k + n] == s[a + k..a + k + n]
  {
    var t, u := s[a..b][k..k + n], s[a + k..a + k + n];
    forall m | 0 <= m < n ensures t[m] == u[m] {
    }
  }

  lemma SliceOfAppendLeft(x: string, y: string, k: nat, n: nat)
    requires k + n <= |x|
    ensures (x + y)[k..k + n] == x[k..k + n]
  {
  }

  lemma SliceOfAppendRight(x: string, y: string, k: nat, n: nat)
    requires |x| <= k && k + n <= |x| + |y|
    ensures (x + y)[k..k + n] == y[k - |x|..k - |x| + n]
  {
  }

  /** A slice of a text free of triple line feeds is free of them too. */
  lemma NoTripleNewlineSlice(s: string, a: nat, b: nat)
    requires a <= b <= |s|
    requires NoTripleNewline(s)
    ensures NoTripleNewline(s[a..b])
  {
    var t := s[a..b];
    forall k | 0 <= k <= |t| ensures !At(t, k, "\n\n\n") {
      if k + 3 <= |t| {
        SliceOfSlice(s, a, b, k, 3);
        assert !At(s, a + k, "\n\n\n");
      }
    }
  }

  /** Where the line feeds ending `a` and those starting `b` add up to three,
      `a + b` holds three in a row. */
  lemma WindowAcross(a: string, b: string)
    ensures TrailNL(a) + LeadNL(b) >= 3 ==> Contains(a + b, "\n\n\n")
  {
    var t, l := TrailNL(a), LeadNL(b);
    if t + l >= 3 {
      var k := if t >= 3 then |a| - 3 else |a| - t;
      assert forall m | k <= m < k + 3 :: (a + b)[m] == '\n' by {
        forall m | k <= m < k + 3 ensures (a + b)[m] == '\n' {
          if m >= |a| {
            assert (a + b)[m] == b[m - |a|];
          } else {
            assert (a + b)[m] == a[m];
          }
        }
      }
      assert (a + b)[k..k + 3] == "\n\n\n";
      assert At(a + b, k, "\n\n\n");
    }
  }

  /** Joining two texts free of triple line feeds keeps them free unless the
      line feeds around the seam add up to three. */
  lemma NoTripleNewlineAppend(a: string, b: string)
    requires NoTripleNewline(a) && NoTripleNewline(b)
    requires TrailNL(a) + LeadNL(b) < 3
    ensures NoTripleNewline(a + b)
  {
    var ab := a + b;
    var t, l := TrailNL(a), LeadNL(b);
    forall k | 0 <= k <= |ab| ensures !At(ab, k, "\n\n\n") {
      if k + 3 <= |ab| {
        if k + 3 <= |a| {
          SliceOfAppendLeft(a, b, k, 3);
          assert !At(a, k, "\n\n\n");
        } else if k >= |a| {
          SliceOfAppendRight(a, b, k, 3);
          assert !At(b, k - |a|, "\n\n\n");
        } else if t < |a| - k {
          var m := |a| - t - 1;
          assert ab[m] == a[m] != '\n';
          assert ab[k..k + 3][m - k] == ab[m];
        } else {
          var m := |a| + l;
          assert l < k + 3 - |a|;
          assert ab[m] == b[l] != '\n';
          assert ab[k..k + 3][m - k] == ab[m];
        }
      }
    }
  }

  /** A replacement `out` for a matched `text` that cannot make a run of line
      feeds longer than the text it replaces. */
  predicate FitsNewlines(text: string, out: string) {
    && NoTripleNewline(out)
    && LeadNL(out) <= LeadNL(text)
    && TrailNL(out) <= TrailNL(text)
    && (LeadNL(out) == |out| ==> LeadNL(text) == |text| && |out| <= |text|)
  }

  lemma FitsNewlinesKept(c: char)
    ensures FitsNewlines([c], [c])
  {
    assert !At([c], 0, "\n\n\n");
    assert !At([c], 1, "\n\n\n");
  }

  /** One step of the scanner: `text + rest` becomes `out + tail`. */
  lemma StepKeepsNoTripleNewline(text: string, out: string, rest: string, tail: string)
    requires NoTripleNewline(text + rest)
    requires FitsNewlines(text, out)
    requires NoTripleNewline(tail) && LeadNL(tail) <= LeadNL(rest)
    ensures NoTripleNewline(out + tail)
    ensures LeadNL(out + tail) <= LeadNL(text + rest)
  {
    WindowAcross(text, rest);
    LeadNLAppend(out, tail);
    LeadNLAppend(text, rest);
    if LeadNL(out) == |out| {
      assert TrailNL(out) == |out|;
      assert TrailNL(text) == |text|;
    }
    NoTripleNewlineAppend(out, tail);
  }

  /** The step of the scanner at `i`, where `n` characters become `out`. */
  lemma StepAt(s: string, i: nat, n: nat, out: string, tail: string)
    requires i + n <= |s|
    requires NoTripleNewline(s[i..])
    requires FitsNewlines(s[i..i + n], out)
    requires NoTripleNewline(tail) && LeadNL(tail) <= LeadNL(s[i + n..])
    ensures NoTripleNewline(out + tail)
    ensures LeadNL(out + tail) <= LeadNL(s[i..])
  {
    assert s[i..] == s[i..i + n] + s[i + n..];
    StepKeepsNoTripleNewline(s[i..i + n], out, s[i + n..], tail);
  }

  lemma SuffixNoTripleNewline(s: string, i: nat, j: nat)
    requires i <= j <= |s|
    requires NoTripleNewline(s[i..])
    ensures NoTripleNewline(s[j..])
  {
    NoTripleNewlineSlice(s[i..], j - i, |s| - i);
    assert s[i..][j - i..|s| - i] == s[j..];
  }

  /** Every match of `r` from `i` on has a replacement that fits. */
  predicate AllHitsFit(s: string, r: Rule, i: nat) {
    forall j | i <= j < |s| && HitsAt(s, r, j) ::
      FitsNewlines(s[j..j + r(s, j).value.len], r(s, j).value.out)
  }

  /** What holds of every match from `i` on holds from any later `j` on, and
      of the match at `i` itself. */
  lemma AllHitsFitFrom(s: string, r: Rule, i: nat, j: nat)
    requires i <= j && AllHitsFit(s, r, i)
    ensures AllHitsFit(s, r, j)
    ensures i < |s| && HitsAt(s, r, i) ==> FitsNewlines(s[i..i + r(s, i).value.len], r(s, i).value.out)
  {
  }

  /** The scanner's step at a match, given what the rest of the scan keeps. */
  lemma HitStep(s: string, r: Rule, i: nat)
    requires HitsAt(s, r, i)
    requires NoTripleNewline(s[i..])
    requires FitsNewlines(s[i..i + r(s, i).value.len], r(s, i).value.out)
    requires NoTripleNewline(ReplaceFrom(s, r, i + r(s, i).value.len))
    requires LeadNL(ReplaceFrom(s, r, i + r(s, i).value.len)) <= LeadNL(s[i + r(s, i).value.len..])
    ensures NoTripleNewline(ReplaceFrom(s, r, i))
    ensures LeadNL(ReplaceFrom(s, r, i)) <= LeadNL(s[i..])
  {
    var h := r(s, i).value;
    StepAt(s, i, h.len, h.out, ReplaceFrom(s, r, i + h.len));
  }

  /** The scanner's step where the rule fails, given what the rest keeps. */
  lemma KeptStep(s: string, r: Rule, i: nat)
    requires i < |s| && !HitsAt(s, r, i)
    requires NoTripleNewline(s[i..])
    requires NoTripleNewline(ReplaceFrom(s, r, i + 1))
    requires LeadNL(ReplaceFrom(s, r, i + 1)) <= LeadNL(s[i + 1..])
    ensures NoTripleNewline(ReplaceFrom(s, r, i))
    ensures LeadNL(ReplaceFrom(s, r, i)) <= LeadNL(s[i..])
  {
    FitsNewlinesKept(s[i]);
    assert s[i..i + 1] == [s[i]];
    StepAt(s, i, 1, [s[i]], ReplaceFrom(s, r, i + 1));
  }

  /** A global replacement whose every replacement fits keeps a text free of
      triple line feeds. */
  lemma {:induction false} ReplaceKeepsNoTripleNewline(s: string, r: Rule, i: nat)
    requires i <= |s|
    requires NoTripleNewline(s[i..])
    requires AllHitsFit(s, r, i)
    ensures NoTripleNewline(ReplaceFrom(s, r, i))
    ensures LeadNL(ReplaceFrom(s, r, i)) <= LeadNL(s[i..])
    decreases |s| - i
  {
    if i == |s| {
      assert !At([], 0, "\n\n\n");
    } else if HitsAt(s, r, i) {
      var n := r(s, i).value.len;
      AllHitsFitFrom(s, r, i, i + n);
      SuffixNoTripleNewline(s, i, i + n);
      ReplaceKeepsNoTripleNewline(s, r, i + n);
      HitStep(s, r, i);
    } else {
      AllHitsFitFrom(s, r, i, i + 1);
      SuffixNoTripleNewline(s, i, i + 1);
      ReplaceKeepsNoTripleNewline(s, r, i + 1);
      KeptStep(s, r, i);
    }
  }

  /** A text without line feeds is trivially free of triple ones. */
  lemma NoNewlineAtAll(s: string)
    requires '\n' !in s
    ensures NoTripleNewline(s) && LeadNL(s) == 0 && TrailNL(s) == 0
  {
    forall k | 0 <= k <= |s| ensures !At(s, k, "\n\n\n") {
      if k + 3 <= |s| {
        assert s[k..k + 3][0] == s[k];
      }
    }
    if s != [] {
      assert s[0] in s;
      assert s[|s| - 1] in s;
    }
  }

  /** A non-empty replacement without line feeds always fits. */
  lemma NoNewlineFits(text: string, out: string)
    requires '\n' !in out && out != []
    ensures FitsNewlines(text, out)
  {
    NoNewlineAtAll(out);
  }

  /** Delimiters without line feeds around a text free of triple ones. */
  lemma WrappedNoTripleNewline(open: string, x: string, close: string)
    requires '\n' !in open && '\n' !in close && open != [] && close != []
    requires NoTripleNewline(x)
    ensures NoTripleNewline(open + x + close)
    ensures LeadNL(open + x + close) == 0 && TrailNL(open + x + close) == 0
  {
    OpenedNoTripleNewline(open, x);
    ClosedNoTripleNewline(open + x, close);
  }

  lemma OpenedNoTripleNewline(open: string, x: string)
    requires '\n' !in open && open != [] && NoTripleNewline(x)
    ensures NoTripleNewline(open + x) && LeadNL(open + x) == 0
  {
    NoNewlineAtAll(open);
    TrailNLAppend(open, x);
    WindowAcross([], x);
    assert [] + x == x;
    NoTripleNewlineAppend(open, x);
    LeadNLAppend(open, x);
  }

  lemma ClosedNoTripleNewline(y: string, close: string)
    requires '\n' !in close && close != [] && y != []
    requires NoTripleNewline(y) && LeadNL(y) == 0
    ensures NoTripleNewline(y + close) && LeadNL(y + close) == 0 && TrailNL(y + close) == 0
  {
    NoNewlineAtAll(close);
    LeadNLAppend(y, close);
    TrailNLAppend(y, close);
    WindowAcross(y, []);
    assert y + [] == y;
    NoTripleNewlineAppend(y, close);
  }
}
