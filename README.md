# Tutor reply formatting, modelled in Dafny

This project models the text pipeline of a math-tutoring web client. The
client receives a tutor's reply from one of three HTTP services or from a
streamed chat completion. It then:

- digs the reply out of its JSON envelope;
- cleans it (code, stray tags, blank-line runs);
- repairs LaTeX and rewrites plain-text trigonometry into display math;
- protects math spans while it applies markdown-like rules (headings, lists,
  emphasis, paragraphs, note cards);
- turns fenced JSON blocks into `[FEEDBACK]`, `[OPTIONS]` and `[QUIZ]`
  markers;
- cuts the text into chunks for a simulated stream;
- turns math into HTML or MathML for the browser.

Each regular-expression replacement is a `Rule`: a function that, at one
position of the original string, either fails or reports how many
characters it consumes and what replaces them. One scanner,
`Scan.ReplaceAll`, applies a rule globally. Matches are leftmost and never
overlap, and a replacement is never rescanned, as with JavaScript's
`String.prototype.replace` and the `g` flag. Context such as the multiline
`^` is read from the original string.

The modules follow the services:

- `Envelope`: `extractResponseContent`. The three HTTP services share it
  word for word.
- `Lambda`, `TexRules`, `PlainTextMath` and `LambdaStreaming`: the Lambda
  client (`lambda.ts`).
- `LambdaService` and `Markdown`: the Lambda service (`lambdaService.ts`).
- `ApiService`: the API service (`apiService.ts`). It shares `Markdown`.
- `MathService`, `MathBlocks` and `MathFormat`: the math service.
- `MathRenderer`: the math renderer.
- `OpenAi` and `OpenAiStream`: the OpenAI client. Its streaming loop is the
  class `OpenAiStream.Completion`, whose fields the loop updates one
  character at a time.
- `Tokens`: the numbered-placeholder protection that `lambda.ts` and
  `apiService.ts` both use.
- `Json`, `Text`, `Patterns`, `Scan` and `Newlines`: shared support.

## Model

| member | source | states |
|---|---|---|
| `Json.Field` | src/services/lambda.ts:96-112 | Property access: `undefined` on anything but an object and when no member has the key; otherwise the value of the LAST member with that key, as `JSON.parse` keeps it |
| `Json.Lookup` | src/services/lambda.ts:87 | A found value belongs to a member with the key after which no member has it; none is found exactly when no member has the key |
| `Json.Or` | src/services/lambda.ts:89 | JavaScript `a \|\| b`: `a` when truthy, else `b` |
| `Envelope.Pick` | src/services/lambda.ts:89 | `x.response \|\| x.message \|\| fallback`: the first truthy of the two fields, else the fallback; the result is the fallback or truthy |
| `Envelope.FromText` | src/services/lambda.ts:86-93 | A string envelope: unchanged when `JSON.parse` throws, else the picked field of the parsed value with the string as fallback |
| `Envelope.ExtractResponseContent` | src/services/lambda.ts:84-117 | The full case table: string envelope, truthy `body` (string or object), top-level `response`/`message`, else the whole value as text; anything not text was picked for being truthy |
| `Envelope.BodyDecidesAlone` | src/services/lambda.ts:96-108 | With a truthy `body`, the other fields of the envelope do not matter |
| `Envelope.UnparsedStringUnchanged` | src/services/lambda.ts:90-92 | A string that is not JSON comes back unchanged, the empty string included |
| `Envelope.NullParsedStringUnchanged` | src/services/lambda.ts:87-92 | A string that parses to `null` comes back unchanged: `null.response` throws into the catch |
| `Envelope.NullParsedBodyUnchanged` | src/services/lambda.ts:98-104 | A string `body` that parses to `null` is returned as the body string |
| `Envelope.ApologyHasNoLineFeed` | src/services/lambda.ts:124 | The fixed apology is non-empty and has no line feed |
| `Lambda.IncludeBlock` | src/services/lambda.ts:128 | `#include…return 0;\s*}` matches only at `#include`, ends at a `}` and is deleted |
| `Lambda.CodeFence` | src/services/lambda.ts:131 | A fenced code block from ```` ``` ```` to the next ```` ``` ```` is deleted |
| `Lambda.HtmlTag` | src/services/lambda.ts:134 | A tag not starting with a MathML name is deleted up to the first `>`, and is matched whenever such a `>` exists |
| `Lambda.NewlineRun` | src/services/lambda.ts:137 | A run of three or more line feeds, whole, becomes two |
| `Lambda.CollapseBreaksRuns` | src/services/lambda.ts:137 | After the newline pass no three line feeds remain in a row |
| `Lambda.CollapsedHasNoTripleNewline` | src/services/lambda.ts:137-138 | The collapsed and trimmed text has no three line feeds in a row |
| `Lambda.InlineRepair` | src/services/lambda.ts:157-177 | A `$…$` body that is a currency amount is kept; any other body gets the six LaTeX repairs |
| `Lambda.DollarSpan` | src/services/lambda.ts:156-178 | `\$(.*?)\$`: a one-line span between dollars, re-emitted between dollars with its body repaired |
| `Lambda.BlockSpan` | src/services/lambda.ts:181-198 | `[MATH]…[/MATH]`: the shortest span, re-emitted between the same delimiters with its body repaired |
| `Lambda.DollarPassKeepsDelimiters` | src/services/lambda.ts:156-178 | The inline pass splits its input into pieces whose inputs spell it; every replaced piece keeps its `$` delimiters |
| `Lambda.BlockPassKeepsDelimiters` | src/services/lambda.ts:181-198 | The block pass splits its input into pieces whose inputs spell it; every replaced piece keeps `[MATH]` and `[/MATH]` |
| `Lambda.FixMathLeavesNoBareScript` | src/services/lambda.ts:175 | After the repairs every `_` or `^` before a letter or digit is followed by a brace |
| `Lambda.FixMathKeepsNoTripleNewline` | src/services/lambda.ts:163-175 | The repairs add no line feed run |
| `Lambda.FixLatexMath` | src/services/lambda.ts:152-201 | The `$…$` pass, then the `[MATH]` pass: each copies what it does not match, and every match it replaces is re-emitted between its own delimiters with the body repaired (an amount body kept as it is); `FixLatexMathKeepsNoTripleNewline` adds that no line feed run is created |
| `Lambda.FixLatexMathKeepsNoTripleNewline` | src/services/lambda.ts:152-201 | `fixLatexMath` keeps a text free of three line feeds in a row |
| `Lambda.ProcessContent` | src/services/lambda.ts:122-147 | The apology for empty or non-string content; otherwise the result never holds three line feeds in a row |
| `TexRules.BackslashName` | src/services/lambda.ts:165 | `([^\\])(names)([^a-zA-Z])`: a listed name after a non-backslash and before a non-letter gets a backslash |
| `TexRules.BackslashPrefix` | src/services/mathService.ts:79 | `([^\\])(names)` without a right context, case-insensitively: the first listed name in list order gets a backslash |
| `TexRules.BackslashCommand` | src/services/lambda.ts:167-171 | `([^\\])cmd\{`: the command gets a backslash and keeps its brace |
| `TexRules.ScriptBraces` | src/services/lambda.ts:175 | `([_^])([0-9a-zA-Z])`: exactly a script mark and one alphanumeric, braced |
| `TexRules.ScriptBracesLeaveNoBareScript` | src/services/lambda.ts:175 | After the script pass no script mark stands before a bare alphanumeric |
| `PlainTextMath.IdentityHit` | src/services/lambda.ts:210-256 | An identity's pattern matches case-insensitively with optional spaces and yields its fixed LaTeX |
| `PlainTextMath.IdentitiesWellFormed` | src/services/lambda.ts:210-256 | Each of the eight patterns opens with a literal holding `θ` or `°`, and its LaTeX is one non-empty line holding neither |
| `PlainTextMath.LatexIsFixedPoint` | src/services/lambda.ts:206-258 | `convertPlainTextMath` leaves each identity's own LaTeX output unchanged |
| `PlainTextMath.UnmarkedUnchanged` | src/services/lambda.ts:206-258 | Text holding no `θ` (in any case) and no `°` passes every identity unchanged |
| `PlainTextMath.ConvertPlainTextMath` | src/services/lambda.ts:206-258 | The eight identities applied in source order; its properties are the lemmas `IdentitiesWellFormed`, `LatexIsFixedPoint`, `ConvertUnmarked` and `ConvertKeepsNoTripleNewline` |
| `PlainTextMath.ConvertUnmarked` | src/services/lambda.ts:206-258 | `convertPlainTextMath` returns text without `θ` or `°` unchanged |
| `PlainTextMath.ConvertKeepsNoTripleNewline` | src/services/lambda.ts:206-258 | The conversion keeps a text free of three line feeds in a row |
| `PlainTextMathExamples.LooseSpellingMatches` | src/services/lambda.ts:240-244 | `SIN(Θ)  =Y!` is matched by the sine short form: case, `θ`/`Θ` and spaces are loose |
| `Tokens.Protect` | src/services/lambda.ts:269-274 | The protecting loop yields the text with each match swapped for `<prefix><n>__` and the list of matched texts, in order |
| `Tokens.ReplaceToken` | src/services/apiService.ts:233-235 | A token alone is replaced by the callback's value for its number |
| `Tokens.Restore` | src/services/lambda.ts:299-303 | The restoring `replace`: `RestoreToken` (a token gives its list entry or `undefined`), `RestoreProtected` (the round trip) and `ApiService.RestoreTokenFree` (text without a token is unchanged) state it |
| `Tokens.RestoreToken` | src/services/lambda.ts:299-303 | A token alone restores to entry `n` of the list, or to `undefined` past its end |
| `Tokens.RestoreProtected` | src/services/lambda.ts:269-303 | Round trip: for text free of the prefix, restoring the protected text gives the original, and token `k` restores to the `k`-th matched text |
| `LambdaStreaming.MathSpanAt` | src/services/lambda.ts:270 | A protected span is a `\[…\]`/`\(…\)`, `[MATH]…[/MATH]` or `$…$` match, recorded verbatim |
| `LambdaStreaming.SentenceAt` | src/services/lambda.ts:277 | `[^.!?]+[.!?]+` starts at a non-terminator |
| `LambdaStreaming.SentencesOfContent` | src/services/lambda.ts:277 | The sentences spell the text from the first non-terminator to the last terminator |
| `LambdaStreaming.WordChunks` | src/services/lambda.ts:281-290 | The word loop yields exactly the chunks of the word-grouping function |
| `LambdaStreaming.WordChunksOfText` | src/services/lambda.ts:281-290 | The word chunks spell the text followed by one space, and there is at least one |
| `LambdaStreaming.WordChunksFlushPolicy` | src/services/lambda.ts:286 | Every chunk is longer than 30 UTF-16 units or ends with the last word |
| `LambdaStreaming.WordChunksEndInSpace` | src/services/lambda.ts:285 | Every word chunk ends with a space |
| `LambdaStreaming.PlaceholderUnbroken` | src/services/lambda.ts:271 | A placeholder holds no sentence terminator and no space, so no chunk boundary falls inside it |
| `LambdaStreaming.RestoreChunks` | src/services/lambda.ts:299-303 | Each chunk is restored on its own |
| `LambdaStreaming.RestoreChunksConcat` | src/services/lambda.ts:299-303 | Restoring chunk by chunk equals restoring the joined text, since every chunk ends at a barrier |
| `LambdaStreaming.WordChunksRestored` | src/services/lambda.ts:279-303 | In the word path the restored chunks spell the original content plus a space |
| `LambdaStreaming.SentenceChunksRestored` | src/services/lambda.ts:277-303 | In the sentence path the restored chunks are exactly the content between its leading terminators and its tail after the last terminator |
| `LambdaStreaming.SimulateStreaming` | src/services/lambda.ts:263-304 | The apology for empty content, at least one chunk, and in each path how the chunks spell the content, math included |
| `Markdown.LoosePlaceholder` | src/services/lambdaService.ts:244 | `MATH_PLACEHOLDER_\d+` is matched exactly when digits follow, and the whole digit run becomes `x` |
| `Markdown.HeadingClass` | src/services/lambdaService.ts:249-251 | Level 1, level 2 and deeper headings get their three class lists |
| `Markdown.Heading` | src/services/lambdaService.ts:247-253 | `^(#+)\s+(.*)$`: a line starting with hashes and white space is matched to its end |
| `Markdown.HeadingOutput` | src/services/lambdaService.ts:247-253 | The heading's level is the number of hashes and its text is the trimmed rest of the line |
| `Markdown.Bullet` | src/services/lambdaService.ts:256 | `^(\s*)([-*])\s+(.*)$` gives `<li>` around the rest of the line |
| `Markdown.Numbered` | src/services/lambdaService.ts:257 | `^(\s*)(\d+\.)\s+(.*)$` gives `<li>` around the rest of the line |
| `Markdown.Lists` | src/services/lambdaService.ts:256-265 | The two item passes, then the four `<ul>` rewrites in source order; `ListsAddsOnlyTagChars`, `ListsWritesNoOrderedList` and `ListsOfTwoBullets` state what it writes |
| `Markdown.ListsAddsOnlyTagChars` | src/services/lambdaService.ts:256-265 | Every character of the output is from the input or from the tags `<ul>`, `</ul>`, `<li>`, `</li>` and a line feed |
| `Markdown.ListsWritesNoOrderedList` | src/services/lambdaService.ts:256-265 | The list passes never write `<ol>` |
| `Markdown.ListsOfTwoBullets` | src/services/lambdaService.ts:256-265 | `- a` and `- b` on consecutive lines become the malformed `<ul><li>a</li></ul>\n<li>b</li></ul>` |
| `Markdown.Structure` | src/services/lambdaService.ts:246-274 | Headings, lists, bold, italic and highlight, in source order; each pass is stated by its rule (`Heading`, `Lists`, `Bold`/`Italic`/`Highlight` through `Delimited`) |
| `Markdown.Paragraphs` | src/services/lambdaService.ts:276-284 | Split on runs of two or more line feeds, wrap each block, join with a blank line; `ParagraphsIdempotent` proves a second pass changes nothing |
| `Markdown.Wrap` | src/services/lambdaService.ts:278-284 | A paragraph already starting with `<` and ending with `>` is kept; any other becomes `<p>` plus its trimmed text plus `</p>` |
| `Markdown.ParagraphsIdempotent` | src/services/lambdaService.ts:277-284 | The paragraph pass applied twice gives what it gives once |
| `Markdown.NoteSpan` | src/services/lambdaService.ts:287 | `:::(important\|tip\|example\|steps)([\s\S]*?):::`: a known kind, then the body up to the first `:::` |
| `Markdown.Note` | src/services/lambdaService.ts:287-320 | A note block becomes a card with the kind's colour, icon and title and the trimmed body |
| `Markdown.OtherKindsPassThrough` | src/services/lambdaService.ts:287 | `:::warning` and `:::definition` are not note blocks |
| `Markdown.EmptyParagraph` | src/services/lambdaService.ts:328 | `<p>\s*</p>` is matched exactly there and deleted |
| `Markdown.Cleanup` | src/services/lambdaService.ts:323-332 | The cleaned text is trimmed at both ends |
| `LambdaService.ProcessContent` | src/services/lambdaService.ts:238-333 | The apology for empty or non-string content; otherwise the shared markdown rules with emoji icons, trimmed |
| `LambdaService.FenceSpan` | src/services/lambdaService.ts:117 | ```` ```json\s*(\{[\s\S]*?\})\s*``` ````: the first closing brace followed by a fence ends the payload, and no other span starts here |
| `LambdaService.Fence` | src/services/lambdaService.ts:119-139 | A matched fence is replaced by the rewrite of its payload |
| `LambdaService.KindOf` | src/services/lambdaService.ts:125-133 | A block's kind is decided by `type` being exactly `feedback`, `options` or `quiz` |
| `LambdaService.FormatBlock` | src/services/lambdaService.ts:145-233 | An invalid block becomes the empty string; a throwing option list escapes; a valid block is its type's tags around `JSON.stringify` of the value |
| `LambdaService.FenceKeptWhenUnrecognised` | src/services/lambdaService.ts:131-137 | A payload that does not parse, or has an unknown type, leaves the fence as it was |
| `LambdaService.FenceKeptWhenFormatterThrows` | src/services/lambdaService.ts:135-137 | When a formatter throws on a null option, the fence is kept |
| `LambdaService.InvalidBlockVanishes` | src/services/lambdaService.ts:146-148 | A block missing its message or option array vanishes |
| `LambdaService.ValidBlockTagged` | src/services/lambdaService.ts:163 | A valid block becomes its tag pair around the stringified value |
| `LambdaService.EmptyOptionsPass` | src/services/lambdaService.ts:145-164 | A feedback block with an empty option array is still valid and tagged |
| `LambdaService.ParseJsonCodeBlocks` | src/services/lambdaService.ts:115-140 | Every ```` ```json ```` fence replaced by the rewrite of its payload (`Fence`); `NoFenceUnchanged`, `KeptFencesUnchanged` and the `Fence…`/`…Block…` lemmas state the outcomes |
| `LambdaService.NoFenceUnchanged` | src/services/lambdaService.ts:115-140 | Text without a ```` ```json ```` fence is unchanged |
| `LambdaService.Reply` | src/services/lambdaService.ts:56-66 | What `onToken` gets: for content that is not a non-empty string, the apology; when the formatted reply holds no fence, exactly the formatted reply |
| `LambdaService.KeptFencesUnchanged` | src/services/lambdaService.ts:115-140 | When every fence's rewrite is itself, the text is unchanged |
| `LambdaService.CreateQuizFromLambdaFormat` | src/services/lambdaService.ts:338-355 | `null` throws on access; a missing `Type`, `quizType` or question array throws the format error; a made quiz keeps the fields, defaults the title and keeps each question's three fields |
| `LambdaService.QuizMadeWhenWellFormed` | src/services/lambdaService.ts:338-355 | Well-formed data with no null question always makes a quiz |
| `ApiService.TableMath` | src/services/apiService.ts:115-140 | Placeholder `n` becomes entry `n` of the formula table between dollars, or `$x$` past its end |
| `ApiService.PlaceholderFromTable` | src/services/apiService.ts:115-140 | A placeholder alone becomes its table formula |
| `ApiService.ApiMath` | src/services/apiService.ts:147 | The protected spans are `$…$` on one line or `[MATH]…[/MATH]`, each recorded verbatim |
| `ApiService.Unplaceholder` | src/services/apiService.ts:114-142 | The table pass, then the loose pass; `PlaceholderFromTable` and `TableMath` state what a placeholder becomes, `Markdown.LoosePlaceholder` what is left over |
| `ApiService.ProcessContent` | src/services/apiService.ts:109-248 | The apology for empty or non-string content; otherwise the laid-out PROTECTED text, cleaned and trimmed: the restoring `replace` finds no token, so the math swapped out is never put back |
| `ApiService.Underline` | src/services/apiService.ts:184 | `__(.*?)__` through `Delimited`; `UnderlineEatsToken` and `UnderlineTokenFree` state its effect on the tokens |
| `ApiService.UnderlineTokenFree` | src/services/apiService.ts:184 | After the underline pass no `__MATH_EXPRESSION_n__` token is left anywhere in the text |
| `ApiService.LayoutTokenFree` | src/services/apiService.ts:184-229 | The text after underline, paragraphs and notes holds no token, whatever the input |
| `ApiService.ParagraphsTokenFree` | src/services/apiService.ts:186-194 | The paragraph pass adds no token to a text without one |
| `ApiService.NotesTokenFree` | src/services/apiService.ts:197-229 | The note pass adds no token to a text without one |
| `ApiService.RestoreTokenFree` | src/services/apiService.ts:232-235 | Text without a token is left as it is by the restoring `replace` |
| `ApiService.NoMathRestored` | src/services/apiService.ts:184-235 | For every input the restoring `replace` returns the laid-out text unchanged, so the result does not depend on the list of math |
| `ApiService.UnderlineEatsToken` | src/services/apiService.ts:184 | Where the underline rule meets a `__MATH_EXPRESSION_n__` token, it consumes the whole token |
| `ApiService.EatenTokenStaysEaten` | src/services/apiService.ts:233-235 | What the underline rule leaves of a token holds no token to restore |
| `ApiService.TokenNotRestored` | src/services/apiService.ts:184-235 | A token alone, underlined and then restored, comes back as an underlined name and not as its math |
| `MathService.TagAt` | src/services/mathService.ts:62 | `<[^>]*>` is matched exactly at a `<` followed later by `>` and is deleted |
| `MathService.SpaceAfterDigit` | src/services/mathService.ts:67 | A digit directly followed by a letter gets a space between them |
| `MathService.TagsRemoved` | src/services/mathService.ts:62 | No complete tag is left after the tag pass |
| `MathService.CleanTeX` | src/services/mathService.ts:60-102 | The cleaned TeX has no digit directly before a letter and no script mark before a bare alphanumeric |
| `MathService.LeadingNameStaysBare` | src/services/mathService.ts:70-100 | The first character is never prefixed, because every rule needs a character before the name |
| `MathService.EscapedBetaSplit` | src/services/mathService.ts:79 | An already escaped `\beta` becomes `\b\eta`, because `eta` follows the `b` |
| `MathService.RenderMath` | src/services/mathService.ts:14-52 | Empty math exactly when the trimmed TeX is empty; otherwise the renderer's output in its wrapper, or the TeX fallback when it throws |
| `MathService.NeitherIsEmptyMath` | src/services/mathService.ts:42-51 | Neither wrapper ever equals the empty-math message |
| `MathBlocks.ChemicalEquation` | src/services/mathService.ts:214-231 | The equation is wrapped in its division with no `->` left between the tags; each of the five passes copies the text outside its matches, every arrow becomes ` → `, a letter's digits and a charge become `<sub>`/`<sup>`, `(g)`, `(l)`, `(s)`, `(aq)` become `<sub>(…)</sub>`, and a heat indicator a red span |
| `MathBlocks.ArrowPassCleans` | src/services/mathService.ts:216 | After the arrow pass no `->` remains |
| `MathBlocks.FormatTable` | src/services/mathService.ts:238-277 | The method's HTML equals the table function of the content |
| `MathBlocks.TagEach` | src/services/mathService.ts:250-253 | The cell loop wraps each item in the tag pair, in order |
| `MathBlocks.TableRow` | src/services/mathService.ts:264-274 | A line's row is its non-blank trimmed cells, or nothing |
| `MathBlocks.TableErrorIffShort` | src/services/mathService.ts:239-240 | The error division exactly when fewer than two lines |
| `MathBlocks.HeaderIffDash` | src/services/mathService.ts:243-258 | A `<thead>` exactly when the second line holds a `-` |
| `MathBlocks.FirstLineIgnored` | src/services/mathService.ts:256-258 | Without a header the first line is dropped, so it does not affect the table |
| `MathBlocks.RowOmittedIffBlank` | src/services/mathService.ts:265-266 | A row is left out exactly when all its cells are blank |
| `MathBlocks.NonBlankEmptyIffBlank` | src/services/mathService.ts:265 | The filtered cells are empty exactly when every cell trims to empty |
| `MathBlocks.NoteBlock` | src/services/mathService.ts:289-321 | The card uses a non-empty custom title, else the type's title |
| `MathFormat.BreakRunAt` | src/services/mathService.ts:194 | `(?:\r\n\|\r\|\n){2,}` is matched exactly at two or more line-break units, which become `</p><p>` |
| `MathFormat.Enclose` | src/services/mathService.ts:195-200 | The result starts with `<` and ends with `>`; tagged content is kept as it is |
| `MathFormat.Noted` | src/services/mathService.ts:143-146 | A note match opens with `:::` and one of the six names, and its body runs to the first `:::` after the name |
| `MathFormat.NoteKindBecomesCard` | src/services/mathService.ts:143-146 | `:::kind b:::` becomes the card of that kind, with its icon and title around the trimmed body, for all six kinds |
| `MathFormat.KeyPointed` | src/services/mathService.ts:148-151 | A key point is matched exactly where the label is followed by a character other than a line feed, and runs to the end of the line |
| `MathFormat.KeyPointBecomesNote` | src/services/mathService.ts:148-151 | `Key Point: t` becomes an important card titled "Key Point" around the trimmed text |
| `MathFormat.Fenced` | src/services/mathService.ts:158-161 | A code match is the fence, the whole lower-case language, a line feed, and code up to the first closing fence |
| `MathFormat.CodeBlockBecomesPre` | src/services/mathService.ts:158-161 | A code block becomes a `pre` of its language around the trimmed code |
| `MathFormat.HeaderAt` | src/services/mathService.ts:166-168 | A header is matched exactly at its marker and runs to the end of its line, written inside the header tags |
| `MathFormat.ScriptAt` | src/services/mathService.ts:190-191 | A script match is a non-empty run without white space or the mark, between two marks, written inside the tag |
| `MathFormat.ScriptMatches` | src/services/mathService.ts:190-191 | Conversely, every such run between two marks is matched |
| `MathFormat.FormatContent` | src/services/mathService.ts:110-207 | Empty content gives the empty string; otherwise the result starts with `<` and ends with `>` |
| `MathFormat.DollarsDecide` | src/services/mathService.ts:120-126 | A `$` span with a currency body is kept; any other is rendered inline from the trimmed body |
| `MathFormat.BoldBeforeItalic` | src/services/mathService.ts:171-174 | `**b**` becomes bold and is not taken for italics |
| `MathFormat.ThirdLevelHeader` | src/services/mathService.ts:166-168 | `### t` becomes an `h3`, not an `h1` or `h2` |
| `MathFormat.LoneCrLfBreaksParagraph` | src/services/mathService.ts:194 | One `\r\n` counts as two breaks and splits the paragraph; one `\n` does not |
| `MathRenderer.FormatContent` | src/services/mathRenderer.ts:11-47 | Empty content gives the empty string; otherwise five passes in source order, each copying what it does not match: placeholders become `x`; `[MATH]`, `\[…\]` and `\(…\)` matches become a block or inline wrapper of the trimmed body; a `$` match is kept when its body is an amount and otherwise becomes an inline wrapper |
| `MathRenderer.PlainTextUntouched` | src/services/mathRenderer.ts:11-42 | Text without `$`, `\` or `[` only loses its placeholders |
| `MathRenderer.PlaceholderBecomesX` | src/services/mathRenderer.ts:16 | `MATH_PLACEHOLDER_` followed by digits becomes `x` |
| `MathRenderer.CurrencyKept` | src/services/mathRenderer.ts:24-28 | A currency amount between dollars is kept verbatim |
| `MathRenderer.DollarSpan` | src/services/mathRenderer.ts:24-30 | A one-line `$` span is kept when it is an amount and otherwise becomes an inline span of the trimmed body |
| `MathRenderer.NestedBlock` | src/services/mathRenderer.ts:19-35 | A `[MATH]` block is wrapped twice: its `\[…\]` body is caught again by the TeX block pass |
| `MathRenderer.NestedInline` | src/services/mathRenderer.ts:24-40 | A `$` span is wrapped twice: its `\(…\)` body is caught again by the TeX inline pass |
| `OpenAi.FormatContent` | src/services/openai.ts:117-205 | The math, placeholder and note passes, then third-level headers, bold, highlights and `^^` underlines, in source order; `PlainTextUntouched`, `MathBlockNamespace`, `InlineMathML`, `PlaceholderEntry`, `NoteBecomesCard` and `WarningLeftAlone` state them |
| `OpenAi.PlainTextUntouched` | src/services/openai.ts:117-205 | Text without any of the markers is returned unchanged |
| `OpenAi.MathBlockNamespace` | src/services/openai.ts:119-125 | A `[MATH]` body without `xmlns=` gets a block `<math>` element around its trimmed body; one with it is kept |
| `OpenAi.InlineMathML` | src/services/openai.ts:128-134 | A `$` body without `<math` gets an inline `<math><mrow>` wrapper around its trimmed body; one with it is kept |
| `OpenAi.PlaceholderEntry` | src/services/openai.ts:137-159 | Placeholder `n` becomes inline MathML of table entry `n`, or of `x` past its end |
| `OpenAi.PlaceholderDigits` | src/services/openai.ts:137-159 | Any digit run, leading zeros included, is read with `parseInt` |
| `OpenAi.NoteTemplate` | src/services/openai.ts:184-195 | The trimmed template string is the card of the kind and text |
| `OpenAi.NoteBecomesCard` | src/services/openai.ts:162-196 | A note block of a known kind becomes the card with its trimmed body |
| `OpenAi.WarningLeftAlone` | src/services/openai.ts:162 | `:::warning…:::` is left as it was |
| `OpenAiStream.Completion.constructor` | src/services/openai.ts:234-236 | The loop starts with empty buffers, outside math, having emitted nothing |
| `OpenAiStream.Completion.Feed` | src/services/openai.ts:242-272 | One character moves the state exactly as the loop body does |
| `OpenAiStream.Completion.FeedChunk` | src/services/openai.ts:238-273 | One streamed chunk is fed character by character |
| `OpenAiStream.Completion.Finish` | src/services/openai.ts:276-279 | After the stream, both buffers are flushed and one last output is emitted when either is non-empty |
| `OpenAiStream.Completion.Complete` | src/services/openai.ts:234-279 | The whole stream followed by the flush |
| `OpenAiStream.RunKeepsOrder` | src/services/openai.ts:242-272 | The accumulated text, the math buffer and the buffer together are always exactly the characters read so far, in order |
| `OpenAiStream.EnterIff` | src/services/openai.ts:255-258 | Math mode is entered exactly when the buffer ends in `[MATH` and `]` arrives; the five characters move to the math buffer |
| `OpenAiStream.LeaveIff` | src/services/openai.ts:243-253 | Math mode is left exactly when the math buffer then ends with `[/MATH]` |
| `OpenAiStream.SilentInMath` | src/services/openai.ts:243-253 | Nothing is emitted while inside math |
| `OpenAiStream.FlushIff` | src/services/openai.ts:259-269 | Outside math, a step emits exactly at a sentence or paragraph boundary, and otherwise only appends the character |
| `OpenAiStream.StepAppends` | src/services/openai.ts:242-272 | The accumulated text only grows, and each emission is the formatted accumulated text |
| `OpenAiStream.StaysInMath` | src/services/openai.ts:243-253 | Inside math, characters without `]` only extend the math buffer |
| `OpenAiStream.FinalKeepsAll` | src/services/openai.ts:276-279 | Outside math the final accumulated text is everything read |
| `OpenAiStream.FinalReorders` | src/services/openai.ts:276-279 | An unclosed `[MATH]` block is moved in front of the text buffered before it |
| `Text.Trim` | src/services/lambda.ts:138 | `trim()`: the input without its leading and trailing `\s` run, starting and ending with a non-space |
| `Text.Split` | src/services/lambda.ts:281 | `split(sep)`: parts without the separator that join back to the input |
| `Text.DigitsValueOfNatToString` | src/services/apiService.ts:117 | `parseInt` of a number's decimal digits is the number |
| `Scan.PiecesSpell` | src/services/lambda.ts:156 | A global replace cuts its input into pieces whose inputs spell it and whose outputs spell the result |
| `Scan.ReplaceWithoutHits` | src/services/lambda.ts:137 | A global replace with no match anywhere returns its input |
| `Newlines.ReplaceKeepsNoTripleNewline` | src/services/lambda.ts:152-201 | A global replace whose every match keeps its line feeds at the ends keeps a text free of three line feeds in a row |
| `Patterns.LazyUntil` | src/services/lambda.ts:181 | `[\s\S]*?lit` (or `.*?lit`) ends at the first occurrence of `lit`, across no line terminator unless dot-all |
| `Patterns.FirstNameAt` | src/services/lambda.ts:165 | An alternation of names matches a listed name present at the position, and none exactly when no listed name is |
| `Patterns.FirstNameAtFirst` | src/services/lambda.ts:165 | The name matched is the first listed one present: no name listed before it is present |
| `Patterns.FirstNameFolded` | src/services/mathService.ts:79 | The same, comparing case-insensitively |
| `Patterns.FirstNameFoldedFirst` | src/services/mathService.ts:79 | Case-insensitively, the name matched is the first listed one present |

## Left out

- The network and the UI are not modelled. That covers `sendLambdaRequest`,
  `streamLambdaResponse` and its `setTimeout` pacing, `initializeOpenAI`,
  the OpenAI request and its `onToken` callback (recorded as a sequence),
  `renderMathInElement` and `typeset` (DOM, KaTeX auto-render, MathJax),
  `formatScientificNotation`, the system prompt text and all console logging.
- The thrown `OpenAI not initialized` error of `streamCompletion` is left out.
  So are its errors from the network.
- JSON numbers are integers. `String(n)` of a fractional number in the last
  fallback of `extractResponseContent` is not modelled.
- `JSON.parse` and `JSON.stringify` are a pair of functions (`Json.Codec`)
  whose behaviour is not defined here. Lemmas that need parsing state it as a
  precondition on the codec. RFC 8259 text is not parsed.
- KaTeX's `renderToString` is a function parameter (`MathService.Renderer`).
  It returns nothing where KaTeX would throw. Its macros and options are not
  modelled.
- The `catch` of `formatContent` in the math service and the math renderer
  returns an "Error formatting content" paragraph. Nothing in the modelled
  passes throws, so that branch is dropped.
- A value whose `toString` throws inside a template literal is not modelled.
- The `html` strings built and then discarded by `formatFeedbackJson`,
  `formatOptionsJson` and `formatQuizJson` are not modelled. Their one
  observable effect is kept: the throw on a `null` option.
- Strings are sequences of code points. JavaScript's UTF-16 `length` matters
  only in `simulateStreaming`'s 30-unit test, and `Text.Utf16Length` models it
  there. Regular expressions act on code points, which agrees with UTF-16 for
  every pattern character used.
- Idempotence of the LaTeX repairs is not claimed. It does not hold:
  `MathService.EscapedBetaSplit` shows an already escaped name being split.
- `Lambda.ProcessContent`: its contract states the apology and the absence
  of three line feeds in a row. The `query` parameter of the source is unused
  there and is not modelled.
- `MathFormat.FormatContent`: its contract states the empty case and the `<`
  and `>` enclosure, not what each pass does. The passes are stated by the
  contracts of their rules and by lemmas: the math passes by `Patterns.Enclosed` and
  `MathFormat.DollarsDecide`, chemistry by `MathBlocks.ChemicalEquation`,
  notes by `MathFormat.Noted` and `MathFormat.NoteKindBecomesCard`, key
  points by `MathFormat.KeyPointed` and `MathFormat.KeyPointBecomesNote`,
  tables by `Patterns.Enclosed` and the `MathBlocks` table lemmas, code by
  `MathFormat.Fenced` and `MathFormat.CodeBlockBecomesPre`, headers by
  `MathFormat.HeaderAt` and `MathFormat.ThirdLevelHeader`, bold and italic by
  `MathFormat.BoldBeforeItalic` and the `Markdown` rules, the highlights,
  underline and strike-through by `Markdown.Delimited`, scripts by
  `MathFormat.ScriptAt` and `MathFormat.ScriptMatches`, and paragraph breaks
  by `MathFormat.BreakRunAt`. No lemma follows a text through the whole chain.
- `OpenAiStream.Completion`: its methods' contracts use `old`. The order,
  entry, exit and flush properties are proved on the `Step`, `Run` and
  `Final` functions the methods are tied to.
- `Patterns.FirstNameAt`: its contract states that the match is a listed
  name present at the position. That it is the FIRST listed name present is
  the lemma `Patterns.FirstNameAtFirst`, kept out of the function's contract
  so that callers do not carry the extra quantifier.
- `Patterns.FirstNameFolded`: likewise, with `Patterns.FirstNameFoldedFirst`.
