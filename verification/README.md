# SML markup ⇄ styled runs (icfp2001), modelled in Dafny

This project models the core of a small Go program. The program reads a flat tag
markup ("SML", e.g. `<B>bold<r>red and bold</r>just bold</B>`) into a document
of styled runs, merges neighbouring runs with the same style, and writes the
document back out as markup. The model covers:

- **The style state**: `Decoration`, with its eight fields, and `TextColour`, with eight colours.
- **`Equals`**: the program's custom equality on styles.
- **`Apply`**: changes a style by tag names.
- **`collapseWhitespace` and `NewDecoratedText`**: build one run from a piece of text.
- **`Compact`**: the compactor.
- **`TagsTo`, `NTagsTo` and `GenerateSML`**: the emitter, which diffs each style against the last one written, using a stack of open tag names.
- **`tokens2chan`**: the tokenizer.
- **`parse`**: replays the tokens against a stack of saved styles.

Modules follow the program's structure:

| file | module | models |
|---|---|---|
| `results.dfy` | `Results` | `Option` and `Result` (a Go `panic` on an unknown tag becomes `Failure(tag)`) |
| `stacks.dfy` | `Stacks` | `StackStr`/`Stack`: `Empty`, `Peek`, `Push`; `Pop` as `Peek` plus `Below` |
| `strings.dfy` | `Strs` | `strings.IndexRune`, `strings.Join(_, " ")`, and string concatenation |
| `decoration.dfy` | `Decorations` | `TextColour`, its lower-cased `String()` name, `Decoration`, `Equals`, `DefaultDecoration` |
| `apply.dfy` | `Tags` | `Decoration.Apply` |
| `runs.dfy` | `Runs` | `collapseWhitespace`, `strings.Split(_, " ")`, `DecoratedText`, `NewDecoratedText` |
| `compact.dfy` | `Compaction` | `Document.Compact` |
| `emitter.dfy` | `Emitter` | `TagsTo`, `NTagsTo`, `GenerateSML` |
| `tokenizer.dfy` | `Tokenizer` | `tokens2chan` |
| `parser.dfy` | `Parser` | `parse` |
| `roundtrip.dfy` | `RoundTrip` | what happens when generated markup is parsed again |

Field names are `bold` (B), `em` (Em), `italic` (I), `strike` (S),
`tt` (Tt), `underline` (U), `size` (Size) and `colour` (Color). A document is
`seq<Part>`, where `Part(deco, tokens)` is a `DecoratedText`.

`GenerateSML` is modelled in two steps:

1. `Emit` produces a sequence of pieces (`Tag(name)` or `Text(text)`).
2. `Render` spells the pieces out as a string.

This lets the tag structure and the text be stated separately.

Where the program's behaviour is surprising, the model follows the code:

- **`Equals`** skips the `Em` comparison when `S` (strike) is set.
- **`Compact`** keeps empty runs.
- **`NewDecoratedText`** keeps the empty first and last tokens that leading and trailing whitespace produce.
- **Bold-off** closes every tag above the topmost `B` and never reopens those tags.
- **Emphasis** is written as `<Em>`, but `Apply` only knows `EM`.

The last two points mean that generated markup does not always read back.
`RoundTrip` proves one half of reading back for a stated class of documents:
the generated markup tokenizes into exactly the tags and texts that were
written. It does not prove that parsing those tokens rebuilds the document.
It also gives concrete documents whose markup parses into a different
document, or fails to parse.

## Model

| member | source | states |
|---|---|---|
| Decorations.Equals | doc/doc.go:59-68 | Two styles are `Equals` exactly when all eight fields agree, except that `em` is not compared when both have `strike` set. |
| Decorations.EqualsIsEquivalence | doc/doc.go:59-68 | `Equals` is reflexive, symmetric and transitive. |
| Decorations.EqualsIgnoresOnlyStruckEmphasis | doc/doc.go:59-68 | Styles that are `Equals` but not identical differ only in `em`, and both are struck. Flipping `em` is invisible to `Equals` exactly when `strike` is set. |
| Decorations.DefaultDecoration | doc/doc.go:70-72 | No contract. It is the starting style of both `parse` and `GenerateSML`; its properties are in the rows `Emitter.EmitPlainDocument` and `Emitter.EmitRuns`. |
| Decorations.ColourTag | doc/doc.go:277-300 | The tag name of a colour is a single lower-case letter. Which letter is stated in the row `ColourTagLetters`. |
| Decorations.ColourTagLetters | doc/doc.go:277-300 | The lower-cased `String()` name of each colour is its one letter `w r g b c m y k`. |
| Decorations.ColourTagInjective | doc/doc.go:277-300 | Different colours get different tag names. |
| Tags.ColourOfTag | doc/doc.go:226-241 | A tag names a colour exactly when it is one of the eight colour letters. |
| Tags.ApplyTag | doc/doc.go:202-244 | One tag succeeds exactly when it is a known name. Any other tag fails with that tag (the `panic`). |
| Tags.Apply | doc/doc.go:200-247 | `Apply` succeeds exactly when every tag is known. A failure names the first unknown tag in the list: every tag before it is known. No tags gives the receiver back. `underline` stays within 0..3. |
| Tags.ApplyMeetsSpec | doc/doc.go:200-247 | For known tags, `Apply` equals an independent per-field description (see the list below this table). |
| Tags.ApplyEmphasisToggle | doc/doc.go:206-207 | Without `PL`, `em` ends as `!src.em` if `EM` occurs anywhere in the call, and as `src.em` otherwise. |
| Tags.EmphasisToggleIsPerCall | doc/doc.go:206-207 | `EM EM` in one call toggles once. `EM` in two separate calls toggles back. |
| Tags.ApplyPlain | doc/doc.go:210-215 | `PL` clears `underline`, `bold`, `em`, `strike` and `tt`. It leaves `italic`, `size` and `colour` alone. |
| Tags.ApplyUnderlineCapped | doc/doc.go:220-223 | `U` raises `underline` by one below 3 and leaves any level of 3 or more as it is. Nothing else changes. |
| Tags.ApplyDigit | doc/doc.go:224-225 | A digit tag sets `size` to its value and changes nothing else. |
| Tags.ApplyColourRoundTrip | doc/doc.go:226-241 | Applying a colour's lower-cased name sets `colour` to that colour and changes nothing else. |
| Runs.CollapseWhitespace | doc/doc.go:260-265 | The shape of the collapsed text: its length, its first character, single spaces only, and the non-whitespace characters kept in order (details below the table). Where the spaces fall is stated by `CollapseMatchesReference`. |
| Runs.CollapseMatchesReference | doc/doc.go:260-265 | `collapseWhitespace` equals an independent reading from the right end. A non-whitespace character is copied. A whitespace character becomes one space, unless the character before it is whitespace too. So every maximal run of whitespace becomes exactly one space, in place. |
| Runs.CollapseEndsInSpace | doc/doc.go:260-265 | The collapsed text ends in a space exactly when the input ends in whitespace. |
| Runs.CollapseFixesCollapsed | doc/doc.go:260-265 | Text already in collapsed form is unchanged. |
| Runs.CollapseIdempotent | doc/doc.go:260-265 | Collapsing twice equals collapsing once. |
| Runs.Split | doc/doc.go:272 | `strings.Split(_, " ")` gives at least one piece, no piece holds a space, and joining the pieces with spaces gives the input back. |
| Runs.SplitJoin | doc/doc.go:272 | Splitting what was joined from space-free pieces gives those pieces back. Together with `Split`, this makes splitting and joining inverse. |
| Runs.SplitHead | doc/doc.go:272 | The first piece is empty exactly when the text is empty or starts with a space. |
| Runs.SplitLast | doc/doc.go:272 | The last piece is empty exactly when the text is empty or ends with a space. |
| Runs.SplitPieces | doc/doc.go:272 | On text without two adjacent spaces, every piece except the first and last is non-empty. |
| Runs.NewDecoratedText | doc/doc.go:267-275 | The run keeps the style. Typewriter text is exactly `[text]`. Otherwise see below the table. |
| Runs.NewDecoratedTextEdges | doc/doc.go:267-275 | For non-typewriter text, the first token is empty exactly when the text is empty or starts with whitespace. Likewise, the last token is empty exactly when the text is empty or ends with whitespace. |
| Compaction.Merge | doc/doc.go:184-188 | No contract. Its properties are in the rows `Compaction.CompactMatchesGrouped` and `Compaction.CompactKeepsText`. |
| Compaction.Compact | doc/doc.go:175-197 | A non-empty document compacts to between 1 and its own number of runs, and no two neighbours are `Equals`. Which tokens land in which output run is stated in the row `CompactMatchesGrouped`. |
| Compaction.CompactMatchesGrouped | doc/doc.go:175-197 | `Compact` equals an independent group-by-group description, `Grouped` (details below the table). |
| Compaction.CompactKeepsGroupHeads | doc/doc.go:180-195 | The output's styles are exactly the styles of the first run of each maximal group of `Equals` neighbours. |
| Compaction.CompactKeepsTokens | doc/doc.go:186-187 | Without typewriter runs, the in-order concatenation of all token lists is unchanged. |
| Compaction.CompactKeepsText | doc/doc.go:184-187 | On well-formed runs, including the typewriter merge `Tokens[0] += ...`, the concatenated text of all tokens is unchanged and the output is well-formed. |
| Compaction.CompactFixesCompacted | doc/doc.go:180-195 | A document with no `Equals` neighbours is returned unchanged. |
| Compaction.CompactIdempotent | doc/doc.go:175-197 | Compacting twice equals compacting once. |
| Tokenizer.Tokenize | main.go:10-36 | No contract. Its properties are in the rows `TokenizeStopsOnlyWhenStuck`, `TokenizeWellShaped` and `TokenizeConcat`. |
| Tokenizer.TokenizeStopsOnlyWhenStuck | main.go:16-35 | The tokens concatenate to a prefix of the input (details below the table). |
| Tokenizer.TokenizeWellShaped | main.go:18-33 | Every token is either a tag or text, and no two text tokens are adjacent (details below the table). |
| Tokenizer.TokenizeConcat | main.go:16-35 | Tokenizing the concatenation of a well-shaped token list gives that list back. |
| Parser.Step | main.go:51-63 | No contract. Its properties are in the rows `CloseIgnoresName` and `OpenThenCloseRestores`. |
| Parser.Run | main.go:49-64 | No contract. Its properties are in the rows `RunFailsIffUnknownOpen`, `RunFailsAtFirstUnknownOpen`, `RunParts`, `RunKeepsOuterContext` and `BalancedRegionRestores`. |
| Parser.Parse | main.go:38-66 | No contract. Its properties are in the row `ParseOutcome`. |
| Parser.CloseIgnoresName | main.go:53-56 | Every close tag acts the same whatever its name. It pops the saved style into `current`, or does nothing on an empty context. |
| Parser.OpenThenCloseRestores | main.go:57-59 | A known open tag followed by any close tag restores the state exactly. |
| Parser.RunFailsIffUnknownOpen | main.go:49-64 | The parse loop aborts exactly when some open tag names a tag `Apply` does not know. The error is an unknown tag name. |
| Parser.RunFailsAtFirstUnknownOpen | main.go:49-64 | When the loop aborts, the error is the tag of the first unknown open tag: every open tag before it is known. |
| Parser.RunParts | main.go:61-63 | The loop adds exactly one run per text token, in token order. The i-th text token becomes `NewDecoratedText(current, token)`, with `current` the state just before it. Runs already built are kept. |
| Parser.RunKeepsOuterContext | main.go:51-60 | Tokens that never close more than they opened grow the context by opens minus closes and leave the outer context untouched. |
| Parser.BalancedRegionRestores | main.go:51-60 | An open tag, a balanced region and a close tag leave `current` and the context as they were. |
| Parser.ParseOutcome | main.go:38-66 | `parse` fails exactly when an open tag is unknown, and the error is the first such tag. On success it yields one run per text token, all well-formed and free of `<`. |
| Emitter.TagsTo | doc/doc.go:94-129 | No contract beyond the `Pop` precondition: bold-off needs a non-empty stack. Its properties are in the rows `PopToBold`, `TagsToOpensOnly`, `TagsToBoldOff`, `TagsToShape`, `TagsToKeepsBookkeeping` and `TagsToReplays`. |
| Emitter.NTagsTo | doc/doc.go:130-133 | No contract. Its properties are in the row `NTagsToCountsChanges`. |
| Emitter.EmitFrom | doc/doc.go:143-166 | No contract. Its properties are in the rows `EmitNests`, `EmitText` and `EmitRuns`. |
| Emitter.Emit | doc/doc.go:136-173 | No contract. Its properties are in the rows `EmitNests`, `EmitText`, `EmitRuns` and `EmitPlainDocument`. |
| Emitter.GenerateSML | doc/doc.go:136-173 | No contract. It spells out the pieces of `Emit`. Its properties are in the rows of `Emit`. |
| Emitter.CloseAllTopFirst | doc/doc.go:168-170 | The final drain writes one close tag per remaining name, top first. |
| Emitter.PopToBold | doc/doc.go:99-109 | Bold-off pops up to the topmost `B`. It closes every name above it, innermost first, and keeps what lies below. With no `B` it closes the whole stack. |
| Emitter.TagsToOpensOnly | doc/doc.go:110-128 | When bold is not switched off, the tags are the additions in the order bold, `Em`, colour, each pushed in that order. |
| Emitter.TagsToBoldOff | doc/doc.go:98-128 | When bold is switched off, the tags close everything down to the topmost `B`, then add `Em` and colour. The closed names are never pushed back. |
| Emitter.TagsToShape | doc/doc.go:94-128 | Both cases of `TagsTo` together. A `B` missing from the stack empties it and still writes `/B`. |
| Emitter.NTagsToCountsChanges | doc/doc.go:130-133 | `NTagsTo` is 0 exactly when `bold`, `em` and `colour` are unchanged, and then the stack is unchanged. Otherwise it is at least the number of those fields that changed. |
| Emitter.TagsToKeepsBookkeeping | doc/doc.go:94-128 | From a stack that holds `B` once exactly when bold is on, the new stack again holds `B` once exactly when the new style is bold. So bold-off never meets an empty stack. |
| Emitter.TagsToReplays | doc/doc.go:94-128 | Replaying the written tags against the old stack (open pushes, matching close pops) gives the new stack. |
| Emitter.EmitNests | doc/doc.go:136-173 | The tags `GenerateSML` writes nest properly: every close tag matches the innermost open one, and the stack ends empty. |
| Emitter.EmitText | doc/doc.go:143-166 | The text `GenerateSML` writes is each run's tokens joined by single spaces, runs concatenated with no separator. |
| Emitter.EmitRuns | doc/doc.go:143-164 | How the tags follow the styles, run by run (details below the table). |
| Emitter.EmitPlainDocument | doc/doc.go:146 | A document whose runs are all `Equals` to the default style gets no tags at all. |
| RoundTrip.TokenizeGenerated | main.go:10-35 | Take a document where each run differs in bold, emphasis or colour from the run before it (the first run from the default style) and is not `Equals` to it, and whose text is non-empty and free of `<`. Tokenizing its generated markup gives back exactly the written tags and texts, one token each. |
| RoundTrip.EmphasisDoesNotReadBack | doc/doc.go:116-120 | An emphasised run is written as `<Em>x</Em>`, and parsing that fails with `Em`. |
| RoundTrip.BoldOffLosesColour | doc/doc.go:98-109 | A bold run, then bold red, then plain red, is written `<B>x<r>y</r></B>z`. This parses back with the last run white, not red. |

Details for the longer rows:

- **`Tags.ApplyMeetsSpec`**: the per-field description is:
  - For `bold`, `strike` and `tt`, the last of their own tag or `PL` decides.
  - `em` is the negation of the receiver's `em` after an `EM` that no `PL` follows.
  - `italic` is set by any `I`.
  - `underline` counts the `U`s since the last `PL`, capped at 3.
  - `size` and `colour` come from the last digit tag and the last colour tag.
- **`Runs.CollapseWhitespace`**: the result
  - is no longer than the input, and empty only for empty input;
  - starts with a space exactly when the input starts with whitespace;
  - contains no whitespace other than single spaces, and never two in a row;
  - keeps the non-whitespace characters in order;
  - takes every character that is not a space from the input.
- **`Runs.NewDecoratedText`** (non-typewriter text): the tokens
  - number at least one;
  - join with spaces to the collapsed text;
  - contain no whitespace;
  - are non-empty, except possibly the first and last;
  - use only characters of the text.
- **`Compaction.CompactMatchesGrouped`**: `Grouped` cuts the document into groups. Each group is a run followed by the longest stretch of runs that are `Equals` to that first run. The first run is the one compared, because the kept run `last` keeps its own style while others are merged into it. Each group becomes one run with the first run's style:
  - for non-typewriter text, the tokens are the token lists of the whole group, in order;
  - for typewriter text, the first tokens of the whole group are glued into one first token, followed by the first run's other tokens.
- **`Emitter.EmitRuns`**: the pieces hold exactly one text piece per run, in order, and the k-th is run k's tokens joined by spaces. At the text piece of run k:
  - replaying the tags written so far (open pushes, close pops) leaves `B` open exactly when run k is bold;
  - no tag comes right before it when run k's style is `Equals` to run k-1's (to the default style for the first run);
  - a tag comes right before it when bold or colour differs from run k-1's.
- **`Tokenizer.TokenizeStopsOnlyWhenStuck`**: the prefix is the whole input unless scanning reaches a `<` with no `>` after it, or with `>` right after it.
- **`Tokenizer.TokenizeWellShaped`**: a tag token is `<` + a non-empty body + its first `>`, at least 3 characters. A text token is non-empty and has no `<`.

## Left out

- Debug printing (`fmt.Println`) and `main` with its sample string are not modelled: they are output only.
- The goroutine and channel between `tokens2chan` and `parse` are not modelled. They only pipe tokens in order, so the tokenizer is a function returning the token sequence.
- `Decoration.String`, `DecoratedText.String`, `choose` and `underlineStr` are left out: they are diagnostic formatting. Only the lower-cased colour name used as a tag is modelled.
- The `regexp` and `strconv` calls are written out directly. `collapseWhitespace` is a scan over characters with the same whitespace set `[ \t\n\r\f]`, and a digit tag maps to its value.
- Go's byte indexing versus runes is not modelled. Strings are `seq<char>`. The tokenizer only looks for the ASCII `<` and `>`, so both views cut at the same places.
- The in-place mutation in `Compact` is modelled functionally. The Go code changes the input's `*DecoratedText` values through the shared pointers, and that aliasing is not modelled.
- Compaction.Compact: requires a non-empty document. For an empty document the source appends a `nil` part, and that is not modelled.
- Compaction.Compact: requires `MergeSafe`, meaning each typewriter merge has a first token on both sides. The source indexes `Tokens[0]` there and would panic otherwise. This is the source's own condition, made explicit.
- Compaction.CompactKeepsTokens: stated only for documents without typewriter runs. A typewriter merge glues first tokens together, so the token list changes. `CompactKeepsText` covers that case through the concatenated text.
- Emitter.TagsToBoldOff: requires a non-empty stack. The first `Pop` in the source panics on an empty one. `TagsToKeepsBookkeeping` shows that `GenerateSML` never calls it that way.
- Parser.Step: requires each token to be readable (non-empty, and a tag has at least 3 characters). The source indexes `token[0]` and `tag[0]` here. `Tokenizer.TokenizeWellShaped` shows that every token it produces qualifies.
- RoundTrip.TokenizeGenerated: stated only for documents where each run differs in bold, emphasis or colour from the one before and is not `Equals` to it, and whose text is non-empty and free of `<`. Two struck runs that differ only in emphasis are `Equals`, so no tag is written between them and their texts touch. Otherwise, too, two texts can touch, or text can read as a tag, and the tokens do not come back one for one.
- `NTagsTo` is modelled as the length of `TagsTo`'s tags. The source's commented-out search for a cheaper tag order is not modelled.
