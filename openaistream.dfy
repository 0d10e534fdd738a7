/**
 * The character loop of `streamCompletion` (src/services/openai.ts): the
 * streamed text is read one character at a time into a buffer, a
 * `[MATH]…[/MATH]` block is held back whole in a second buffer, and at
 * sentence or paragraph boundaries the buffer is moved to the accumulated
 * response, whose formatted form is handed to the `onToken` callback.
 * The callback's calls are recorded as the sequence `emitted`.
 */
module OpenAiStream {
  import opened Text
  import OpenAi

  /** The loop's four variables, and what was handed to `onToken` so far. */
  datatype State = State(acc: string, buffer: string, mathBuffer: string, inMath: bool, emitted: seq<string>)

  const Start: State := State([], [], [], false, [])

  /** `[.!?]\s+[A-Z]` occurs in `s`, starting at `k`. Backtracking cannot
      help a shorter run of white space, as no capital is white space. */
  predicate BreakAt(s: string, k: nat) {
    && k < |s|
    && (s[k] == '.' || s[k] == '!' || s[k] == '?')
    && SpaceEnd(s, k + 1) > k + 1
    && SpaceEnd(s, k + 1) < |s|
    && IsUpper(s[SpaceEnd(s, k + 1)])
  }

  predicate HasSentenceBreak(s: string) {
    exists k | 0 <= k < |s| :: BreakAt(s, k)
  }

  /** The buffer is handed over when the character is `.` and the buffer
      holds a sentence break, or when it holds a blank line. */
  predicate Boundary(b: string, c: char) {
    (c == '.' && HasSentenceBreak(b)) || Contains(b, "\n\n")
  }

  /** The buffer ends with `[MATH` and the character is `]`. */
  predicate Opens(st: State, c: char) {
    EndsWith(st.buffer, "[MATH") && c == ']'
  }

  /** One iteration of the character loop. */
  function Step(st: State, c: char): State {
    if st.inMath then
      var mb := st.mathBuffer + [c];
      if EndsWith(mb, "[/MATH]") then
        var acc := st.acc + (st.buffer + mb);
        State(acc, [], [], false, st.emitted + [OpenAi.FormatContent(acc)])
      else st.(mathBuffer := mb)
    else if Opens(st, c) then
      st.(inMath := true, mathBuffer := "[MATH]", buffer := st.buffer[..|st.buffer| - 5])
    else
      var b := st.buffer + [c];
      if Boundary(b, c) then
        var acc := st.acc + b;
        st.(acc := acc, buffer := [], emitted := st.emitted + [OpenAi.FormatContent(acc)])
      else st.(buffer := b)
  }

  /** The loop over the characters of `cs`. */
  function Run(st: State, cs: string): State
    decreases |cs|
  {
    if cs == [] then st else Step(Run(st, cs[..|cs| - 1]), cs[|cs| - 1])
  }

  /** What remains is appended, the math buffer first, and handed over once more. */
  function Final(st: State): State {
    if st.mathBuffer != [] || st.buffer != [] then
      var acc := st.acc + (st.mathBuffer + st.buffer);
      st.(acc := acc, emitted := st.emitted + [OpenAi.FormatContent(acc)])
    else st
  }

  /** The text read so far, in the order it was read. */
  function Consumed(st: State): string {
    st.acc + st.buffer + st.mathBuffer
  }

  /** The math buffer is empty outside a math block and starts with the
      opening tag inside one. */
  predicate Good(st: State) {
    && (!st.inMath ==> st.mathBuffer == [])
    && (st.inMath ==> StartsWith(st.mathBuffer, "[MATH]"))
  }

  /** The streaming state held by `streamCompletion`, updated in place. */
  class Completion {
    var acc: string
    var buffer: string
    var mathBuffer: string
    var inMath: bool
    var emitted: seq<string>

    function Snapshot(): State
      reads this
    {
      State(acc, buffer, mathBuffer, inMath, emitted)
    }

    constructor()
      ensures Snapshot() == Start
    {
      acc, buffer, mathBuffer, inMath, emitted := [], [], [], false, [];
    }

    /** One character of the stream. */
    method Feed(c: char)
      modifies this
      ensures Snapshot() == Step(old(Snapshot()), c)
    {
      if inMath {
        mathBuffer := mathBuffer + [c];
        if EndsWith(mathBuffer, "[/MATH]") {
          buffer := buffer + mathBuffer;
          mathBuffer := [];
          inMath := false;
          acc := acc + buffer;
          emitted := emitted + [OpenAi.FormatContent(acc)];
          buffer := [];
        }
      } else {
        if EndsWith(buffer, "[MATH") && c == ']' {
          inMath := true;
          mathBuffer := "[MATH]";
          buffer := buffer[..|buffer| - 5];
        } else {
          buffer := buffer + [c];
          if (c == '.' && HasSentenceBreak(buffer)) || Contains(buffer, "\n\n") {
            acc := acc + buffer;
            emitted := emitted + [OpenAi.FormatContent(acc)];
            buffer := [];
          }
        }
      }
    }

    /** The characters of one chunk of the stream, in order. */
    method FeedChunk(chunk: string)
      modifies this
      ensures Snapshot() == Run(old(Snapshot()), chunk)
    {
      for i := 0 to |chunk|
        invariant Snapshot() == Run(old(Snapshot()), chunk[..i])
      {
        assert chunk[..i + 1][..i] == chunk[..i];
        Feed(chunk[i]);
      }
      assert chunk[..|chunk|] == chunk;
    }

    /** The flush after the stream ends. */
    method Finish()
      modifies this
      ensures Snapshot() == Final(old(Snapshot()))
    {
      if mathBuffer != [] || buffer != [] {
        acc := acc + (mathBuffer + buffer);
        emitted := emitted + [OpenAi.FormatContent(acc)];
      }
    }

    /** The whole stream, chunk by chunk, then the final flush. */
    method Complete(chunks: seq<string>)
      modifies this
      ensures Snapshot() == Final(Run(old(Snapshot()), Concat(chunks)))
    {
      ghost var s0 := Snapshot();
      for i := 0 to |chunks|
        invariant Snapshot() == Run(s0, Concat(chunks[..i]))
      {
        FeedChunk(chunks[i]);
        RunAppend(s0, Concat(chunks[..i]), chunks[i]);
        ConcatSnoc(chunks, i);
      }
      assert chunks[..|chunks|] == chunks;
      Finish();
    }
  }

  // ---------------------------------------------------------------------
  // Properties

  /** Every step keeps the buffers in shape and the characters in order:
      what was read is the accumulated response, then the buffer, then the
      math buffer. */
  lemma StepKeepsOrder(st: State, c: char)
    requires Good(st)
    ensures Good(Step(st, c))
    ensures Consumed(Step(st, c)) == Consumed(st) + [c]
  {
    if st.inMath {
      OrderInMath(st, c);
    } else if Opens(st, c) {
      OrderOpening(st, c);
    } else {
      OrderPlain(st, c);
    }
  }

  lemma OrderInMath(st: State, c: char)
    requires Good(st) && st.inMath
    ensures Good(Step(st, c)) && Consumed(Step(st, c)) == Consumed(st) + [c]
  {
    if EndsWith(st.mathBuffer + [c], "[/MATH]") {
      OrderClosing(st, c);
    } else {
      OrderMathChar(st, c);
    }
  }

  lemma OrderClosing(st: State, c: char)
    requires st.inMath && EndsWith(st.mathBuffer + [c], "[/MATH]")
    ensures Good(Step(st, c)) && Consumed(Step(st, c)) == Consumed(st) + [c]
  {
    var next := StepCloses(st, c);
    ClosedInOrder(st, c, next);
  }

  lemma ClosedInOrder(st: State, c: char, next: State)
    requires next.acc == st.acc + (st.buffer + (st.mathBuffer + [c]))
    requires next.buffer == [] && next.mathBuffer == [] && !next.inMath
    ensures Good(next) && Consumed(next) == Consumed(st) + [c]
  {
  }

  lemma OrderMathChar(st: State, c: char)
    requires Good(st) && st.inMath && !EndsWith(st.mathBuffer + [c], "[/MATH]")
    ensures Good(Step(st, c)) && Consumed(Step(st, c)) == Consumed(st) + [c]
  {
    var mb := st.mathBuffer + [c];
    StepInMath(st, c);
    assert mb[..6] == st.mathBuffer[..6];
    assert st.acc + st.buffer + mb == Consumed(st) + [c];
  }

  /** The step that completes a math block: both buffers move to the
      accumulated response. */
  lemma StepCloses(st: State, c: char) returns (next: State)
    requires st.inMath && EndsWith(st.mathBuffer + [c], "[/MATH]")
    ensures next == Step(st, c)
    ensures next.acc == st.acc + (st.buffer + (st.mathBuffer + [c]))
    ensures next.buffer == [] && next.mathBuffer == [] && !next.inMath
  {
    next := Step(st, c);
  }

  /** Any other step inside math lengthens the math buffer only. */
  lemma StepInMath(st: State, c: char)
    requires st.inMath && !EndsWith(st.mathBuffer + [c], "[/MATH]")
    ensures Step(st, c) == st.(mathBuffer := st.mathBuffer + [c])
  {
  }

  lemma OrderOpening(st: State, c: char)
    requires Good(st) && !st.inMath && Opens(st, c)
    ensures Good(Step(st, c)) && Consumed(Step(st, c)) == Consumed(st) + [c]
  {
    StepOpens(st, c);
    var b := st.buffer;
    assert b == b[..|b| - 5] + "[MATH";
    assert b[..|b| - 5] + "[MATH]" == b + [c];
    assert Consumed(Step(st, c)) == st.acc + b[..|b| - 5] + "[MATH]";
  }

  /** The step that opens a math block: `[MATH` leaves the buffer and the
      math buffer becomes `[MATH]`. */
  lemma StepOpens(st: State, c: char)
    requires !st.inMath && Opens(st, c)
    ensures Step(st, c) == st.(inMath := true, mathBuffer := "[MATH]", buffer := st.buffer[..|st.buffer| - 5])
  {
  }

  lemma OrderPlain(st: State, c: char)
    requires Good(st) && !st.inMath && !Opens(st, c)
    ensures Good(Step(st, c)) && Consumed(Step(st, c)) == Consumed(st) + [c]
  {
  }

  /** Over any input the stream keeps everything it read, in order. */
  lemma {:induction false} RunKeepsOrder(st: State, cs: string)
    requires Good(st)
    ensures Good(Run(st, cs))
    ensures Consumed(Run(st, cs)) == Consumed(st) + cs
    decreases |cs|
  {
    if cs != [] {
      var init := cs[..|cs| - 1];
      RunKeepsOrder(st, init);
      StepKeepsOrder(Run(st, init), cs[|cs| - 1]);
      assert init + [cs[|cs| - 1]] == cs;
    }
  }

  /** Math mode is entered exactly when the buffer ends with `[MATH` and the
      character is `]`; those five characters move to the math buffer,
      which becomes `[MATH]`. */
  lemma EnterIff(st: State, c: char)
    requires !st.inMath
    ensures Step(st, c).inMath <==> Opens(st, c)
    ensures Opens(st, c) ==>
      Step(st, c).mathBuffer == "[MATH]" && Step(st, c).buffer + "[MATH" == st.buffer
  {
    if Opens(st, c) {
      assert st.buffer[..|st.buffer| - 5] + "[MATH" == st.buffer;
    }
  }

  /** Math mode is left exactly when the math buffer ends with `[/MATH]`. */
  lemma LeaveIff(st: State, c: char)
    requires st.inMath
    ensures !Step(st, c).inMath <==> EndsWith(st.mathBuffer + [c], "[/MATH]")
  {
  }

  /** Nothing is handed to `onToken` on a step that ends inside a math block. */
  lemma SilentInMath(st: State, c: char)
    requires Step(st, c).inMath
    ensures Step(st, c).emitted == st.emitted
  {
  }

  /** Outside math, the buffer is handed over exactly at a boundary. */
  lemma FlushIff(st: State, c: char)
    requires !st.inMath && !Opens(st, c)
    ensures |Step(st, c).emitted| == |st.emitted| + 1 <==> Boundary(st.buffer + [c], c)
    ensures !Boundary(st.buffer + [c], c) ==> Step(st, c).buffer == st.buffer + [c]
  {
  }

  /** The accumulated response only grows at its end, and whatever is
      handed over is the formatted accumulated response. */
  lemma StepAppends(st: State, c: char)
    ensures st.acc <= Step(st, c).acc
    ensures Step(st, c).emitted == st.emitted
      || Step(st, c).emitted == st.emitted + [OpenAi.FormatContent(Step(st, c).acc)]
  {
    var next := Step(st, c);
    if st.inMath {
      var mb := st.mathBuffer + [c];
      if EndsWith(mb, "[/MATH]") {
        assert next.acc == st.acc + (st.buffer + mb);
      } else {
        assert next.acc == st.acc && next.emitted == st.emitted;
      }
    } else if Opens(st, c) {
      assert next.acc == st.acc && next.emitted == st.emitted;
    } else {
      var b := st.buffer + [c];
      if Boundary(b, c) {
        assert next.acc == st.acc + b;
      } else {
        assert next.acc == st.acc && next.emitted == st.emitted;
      }
    }
  }

  /** When the stream ends outside a math block, the final response is
      everything that was read. */
  lemma FinalKeepsAll(st: State)
    requires Good(st) && !st.inMath
    ensures Final(st).acc == Consumed(st)
  {
    assert st.mathBuffer + st.buffer == st.buffer;
  }

  /** When the stream ends inside an unclosed math block, the final flush
      puts the math buffer before the buffer: the text `a` that came before
      `[MATH]` ends up after the math. */
  lemma FinalReorders(a: string, x: string)
    requires a != []
    requires '\n' !in a + x && '.' !in a + x && ']' !in a + x && '[' !in a
    ensures Consumed(Run(Start, a + "[MATH]" + x)) == a + "[MATH]" + x
    ensures Final(Run(Start, a + "[MATH]" + x)).acc == "[MATH]" + x + a
  {
    var s2 := Run(Start, a + "[MATH]" + x);
    InMathTail(a, x);
    Appended(s2.acc, s2.buffer, s2.mathBuffer);
    Appended(s2.acc, s2.mathBuffer, s2.buffer);
    assert s2.mathBuffer != [];
    assert Final(s2).acc == s2.acc + (s2.mathBuffer + s2.buffer);
  }

  lemma InMathTail(a: string, x: string)
    requires '\n' !in a && '.' !in a && ']' !in a + x && '[' !in a
    ensures Run(Start, a + "[MATH]" + x).acc == []
    ensures Run(Start, a + "[MATH]" + x).buffer == a
    ensures Run(Start, a + "[MATH]" + x).mathBuffer == "[MATH]" + x
  {
    var s1 := Run(Start, a + "[MATH]");
    EntersAfter(a);
    StaysInMath(s1, x);
    RunAppend(Start, a + "[MATH]", x);
  }

  lemma Appended(p: string, q: string, r: string)
    requires p == []
    ensures p + q + r == q + r && p + (q + r) == q + r
  {
  }

  /** Plain text followed by `[MATH]` leaves the text in the buffer and
      the opening tag in the math buffer. */
  lemma EntersAfter(a: string)
    requires '\n' !in a && '.' !in a && ']' !in a && '[' !in a
    ensures Run(Start, a + "[MATH]").inMath
    ensures Run(Start, a + "[MATH]").acc == []
    ensures Run(Start, a + "[MATH]").buffer == a
    ensures Run(Start, a + "[MATH]").mathBuffer == "[MATH]"
  {
    var head := a + "[MATH";
    var s0 := Start.(buffer := head);
    HeadBuffered(a);
    HeadOpens(a);
    assert a + "[MATH]" == head + [']'];
    RunSnoc(Start, head, ']');
    StepOpens(s0, ']');
  }

  /** Text before `]` stays in the buffer. */
  lemma HeadBuffered(a: string)
    requires '\n' !in a && '.' !in a && ']' !in a && '[' !in a
    ensures Run(Start, a + "[MATH") == Start.(buffer := a + "[MATH")
  {
    StaysBuffered(Start, a + "[MATH");
    assert Start.buffer + (a + "[MATH") == a + "[MATH";
  }

  /** A buffer holding `a` and `[MATH` opens math on `]`. */
  lemma HeadOpens(a: string)
    ensures Opens(Start.(buffer := a + "[MATH"), ']')
    ensures (a + "[MATH")[..|a + "[MATH"| - 5] == a
  {
    var head := a + "[MATH";
    assert head[|head| - 5..] == "[MATH";
  }

  /** `Run` over one more character is one more `Step`. */
  lemma RunSnoc(st: State, x: string, c: char)
    ensures Run(st, x + [c]) == Step(Run(st, x), c)
  {
    assert (x + [c])[..|x + [c]| - 1] == x;
  }

  /** Inside math, text without `]` only lengthens the math buffer. */
  lemma {:induction false} StaysInMath(st: State, cs: string)
    requires st.inMath && ']' !in cs
    ensures Run(st, cs) == st.(mathBuffer := st.mathBuffer + cs)
    decreases |cs|
  {
    if cs == [] {
      assert st.mathBuffer + cs == st.mathBuffer;
    } else {
      var init := cs[..|cs| - 1];
      var c := cs[|cs| - 1];
      assert cs == init + [c];
      assert st.mathBuffer + cs == (st.mathBuffer + init) + [c];
      StaysInMath(st, init);
      var mb := st.mathBuffer + cs;
      assert mb[|mb| - 1] == c;
    }
  }

  /** Outside math, text without a line feed, a full stop or a `]` only
      lengthens the buffer. */
  lemma {:induction false} StaysBuffered(st: State, cs: string)
    requires !st.inMath
    requires '\n' !in st.buffer + cs && '.' !in cs && ']' !in cs
    ensures Run(st, cs) == st.(buffer := st.buffer + cs)
    decreases |cs|
  {
    if cs == [] {
      assert st.buffer + cs == st.buffer;
    } else {
      var init := cs[..|cs| - 1];
      var c := cs[|cs| - 1];
      assert cs == init + [c];
      assert st.buffer + cs == (st.buffer + init) + [c];
      StaysBuffered(st, init);
      NoBlankLine(st.buffer + cs);
    }
  }

  lemma NoBlankLine(s: string)
    requires '\n' !in s
    ensures !Contains(s, "\n\n")
  {
    forall i | 0 <= i <= |s|
      ensures !At(s, i, "\n\n")
    {
      if i + 2 <= |s| {
        assert s[i..i + 2][0] == s[i];
      }
    }
  }

  /** `Run` over two pieces is `Run` over the first, then over the second. */
  lemma {:induction false} RunAppend(st: State, a: string, b: string)
    ensures Run(st, a + b) == Run(Run(st, a), b)
    decreases |b|
  {
    if b == [] {
      assert a + b == a;
    } else {
      var init := b[..|b| - 1];
      RunAppend(st, a, init);
      assert (a + b)[..|a + b| - 1] == a + init;
    }
  }

  lemma ConcatSnoc(chunks: seq<string>, i: nat)
    requires i < |chunks|
    ensures Concat(chunks[..i + 1]) == Concat(chunks[..i]) + chunks[i]
  {
    assert chunks[..i + 1] == chunks[..i] + [chunks[i]];
    ConcatAppend(chunks[..i], [chunks[i]]);
    assert Concat([chunks[i]]) == chunks[i] + Concat([]);
  }
}
