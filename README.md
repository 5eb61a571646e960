# Editopia call-for-papers page: section splitter and fact extractor

The page script `main.js` loads the call for papers as markdown. It turns it into the page in two steps, and this project models both in Dafny:

- **Section splitter** (`parseMarkdownSections`):
  1. Every escaped dot `\.` in the markdown is replaced by `.`.
  2. The markdown is tokenised.
  3. A cursor with three states walks the tokens and sorts paragraphs into three buckets: the intro, the topic fields ("Themenfelder") and the hard facts.
  4. Fixed marker phrases at the start of a paragraph move the cursor, supply the key quote, or end the walk.
- **Fact extractor** (`generateFactsHTML`): five regular expressions and one substring test are tried, in a fixed order, in the rendered hard-facts HTML. Each match contributes one labelled fact (Format, Abstract, Deadline, Sprachen, Teilnehmer, Gebühr). If no fact is found, the HTML is returned unchanged.

Files:

- `text.dfy` (module `Text`): the JavaScript string built-ins the script uses: `startsWith`, `includes`, `indexOf`, `trim` and the escaped-dot replacement.
- `sections.dfy` (module `SectionSplitter`):
  - The splitter as a specification fold `Run`. `Run` applies one `Step` per token.
  - The script's loop as the method `ParseMarkdownSections`, with `continue` and `break` as in the source. Its loop invariant is proved against `Run`.
  - The properties of the split.
- `facts.dfy` (module `FactExtractor`):
  - Each of the five regular expressions as a `Pattern`, a literal prefix, a capture of one or more characters of a class, and a literal suffix.
  - The meaning of a match (`MatchesAt`, `IsLeftmostCapture`).
  - The executable leftmost search (`SearchFrom`, `FirstCapture`), proved to compute exactly that leftmost capture.
  - The fact list, and the fallback wrapper.
- `wrappers.dfy` (module `Wrappers`): `Option`.

The five regular expressions (main.js:174, 180, 186, 192, 198) have one shape: `prefix([^x]+)suffix` or `prefix(\d+)suffix`, where the suffix starts with a character outside the capture class. So at each start position at most one capture length matches, and that length is the whole run of class characters. `CaptureAt` computes that run greedily. Its contract states that it is the only length `MatchesAt` accepts. JavaScript's `match` tries every start position from the left. `SearchFrom` does the same, so the match found is the one that starts leftmost among those where the whole pattern matches, which is not always the first occurrence of the prefix.

Some facts about `main.js` that the model reproduces as they are:

- `generateFactsHTML` pushes at most six facts. There is no travel-cost fact.
- The topic fields are the paragraphs the splitter collected. They are not numbered.
- The participant value is `max. N Personen`.
- All labels are German.

## Model

Some definitions have no contract of their own. They are the reference definitions the lemmas below are about:

- `Text.StartsWith` is `startsWith` (main.js:111-136).
- `Text.IsWhiteSpace` is the WhiteSpace and LineTerminator set that `trim` removes (main.js:115).
- `SectionSplitter.AddToSection` is the push chain (main.js:136-142).
- `SectionSplitter.Step` is one iteration of the loop body (main.js:101-143).
- `SectionSplitter.Run` is the walk over all tokens, and `SectionSplitter.SplitSections` is its sections (main.js:91-146).
- `FactExtractor.Caption` gives the labels (main.js:176-205).
- `FactExtractor.MatchesAt` is what it means for a regular expression to match at a start position with a given capture length, and `FactExtractor.IsLeftmostCapture` is what `match` yields as its capture group (main.js:174-198).

| member | source | states |
|---|---|---|
| `Text.IncludesFrom` | main.js:204 | `includes` from index `from` on is true exactly when the substring occurs at some index at or after `from` |
| `Text.Includes` | main.js:204 | `s.includes(t)` is true exactly when `t` occurs in `s` at some index |
| `Text.IndexOf` | main.js:113 | the result is -1 exactly when the character is absent; otherwise the index holds the character and no earlier index does |
| `Text.IndexOfFirst` | main.js:113-115 | the index of a first occurrence is what `indexOf` returns |
| `Text.TrimStartDropsWhiteSpace` | main.js:115 | `trimStart` drops a white-space-only prefix and leaves empty or a non-white first character |
| `Text.TrimEndDropsWhiteSpace` | main.js:115 | `trimEnd` drops a white-space-only suffix and leaves empty or a non-white last character |
| `Text.TrimStart` | main.js:115 | removing leading white space never makes a string longer |
| `Text.TrimEnd` | main.js:115 | removing trailing white space never makes a string longer |
| `Text.Trim` | main.js:115 | `trim` never makes a string longer |
| `Text.TrimIsFramedSlice` | main.js:115 | the trimmed text neither starts nor ends with white space, and it is a slice of the input framed on both sides by white space only |
| `Text.ReplaceEscapedDots` | main.js:86 | replacing every `\.` by `.` never makes a string longer |
| `Text.ReplaceKeepsOtherCharacters` | main.js:86 | every character other than a backslash occurs as often after the cleanup as before |
| `Text.ReplaceAroundEscapedDot` | main.js:86 | an escaped dot between two strings becomes a `.` at that very place, and the text on either side is cleaned on its own; with `ReplaceWithoutEscapedDot` this determines the cleanup of every string |
| `Text.ReplaceWithoutEscapedDot` | main.js:86 | a string without a backslash-dot pair is left unchanged |
| `Text.ReplaceShortensEscapedDot` | main.js:86 | a string with a backslash-dot pair becomes strictly shorter |
| `Text.ReplaceEscapedDotsUnchangedIff` | main.js:86 | the cleanup leaves a string unchanged if and only if it has no backslash-dot pair |
| `SectionSplitter.MarkersExclusive` | main.js:111-131 | no paragraph starts with two different marker phrases, so the order of the marker tests does not matter |
| `SectionSplitter.RunPrefix` | main.js:100-144 | walking one more token is one more step of the walk |
| `SectionSplitter.StoppedRunIsFinal` | main.js:131-133 | once the walk has stopped, later tokens change nothing |
| `SectionSplitter.RunThenFinish` | main.js:100-144 | walking a prefix and then the rest gives the same state as walking all tokens |
| `SectionSplitter.FinishStopped` | main.js:131-133 | a stopped walk stays as it is over any further tokens |
| `SectionSplitter.ParseMarkdownSections` | main.js:84-147 | the loop with `continue` and `break` returns the sections the walk gives on the tokens of the cleaned markdown |
| `SectionSplitter.RenderTokens` | main.js:154-162 | an empty token list renders as `''`, any other list as the markdown parser renders it |
| `SectionSplitter.OnlyContentParagraphsAreBucketed` | main.js:100-143 | every bucketed token is a paragraph that is neither a quote nor an end paragraph, so headings and other tokens are never bucketed. No `*Was kommt` paragraph is in the intro |
| `SectionSplitter.ContentParagraphGoesToCursorBucket` | main.js:120-142 | a content paragraph walked before any end paragraph moves the cursor as its marker says and is appended to the bucket the cursor then names, except an agenda paragraph in the intro; the other buckets and the quote stay as they were, and the paragraph is in that bucket at the end |
| `SectionSplitter.BucketsAreDisjointSubsequences` | main.js:136-142 | the three buckets are picked out of the tokens in order, and each token position goes to at most one bucket |
| `SectionSplitter.DisjointSubsequencesAreSubsequences` | main.js:136-142 | each of three disjointly picked sequences is an order-preserving subsequence |
| `SectionSplitter.DisjointSubsequencesUseTokensOnce` | main.js:136-142 | three disjointly picked sequences together use no token more often than it occurs |
| `SectionSplitter.BucketsPartitionTokens` | main.js:136-142 | each bucket is an order-preserving subsequence of the tokens, and the buckets' multisets add up to at most the tokens' multiset (no token is in two buckets) |
| `SectionSplitter.StoppedIffEndSeen` | main.js:131-133 | the walk has stopped if and only if an `Abstracts und Rückfragen` paragraph occurs among the tokens walked |
| `SectionSplitter.CursorFollowsMarkers` | main.js:98-128 | the cursor is on Themenfelder only after a topics-marker paragraph and on HardFacts only after a facts-marker paragraph; otherwise it is still on the intro |
| `SectionSplitter.CursorMovesOnlyOnMarkers` | main.js:98-132 | one step moves the cursor only when the walk is still going and the token is a `Wir bitten um Einreichungen` paragraph (to HardFacts) or a `Wir laden zu Beiträgen ein` paragraph (to Themenfelder); headings, other tokens, quote paragraphs and every other paragraph leave it where it was |
| `SectionSplitter.BucketsGrow` | main.js:136-142 | the buckets of a prefix of the tokens are prefixes of the final buckets |
| `SectionSplitter.IntroIsNeverReentered` | main.js:98-128 | once the cursor has left the intro it never returns, and the intro bucket no longer changes |
| `SectionSplitter.TopicsMarkerEntersThemenfelder` | main.js:121-139 | a `Wir laden zu Beiträgen ein` paragraph before the end puts the cursor on Themenfelder, is appended to the Themenfelder bucket at its own position, and is in that bucket at the end |
| `SectionSplitter.FactsMarkerEntersHardFacts` | main.js:126-141 | a `Wir bitten um Einreichungen` paragraph before the end puts the cursor on HardFacts, is appended to the hard-facts bucket at its own position, and is in that bucket at the end |
| `SectionSplitter.EndParagraphCutsOff` | main.js:131-133 | the sections of all tokens are those of the tokens before an end paragraph, and the end paragraph is in no bucket |
| `SectionSplitter.QuoteStableWithoutSetters` | main.js:111-118 | tokens that are not quote paragraphs with a colon leave the quote unchanged |
| `SectionSplitter.LastQuoteParagraphWins` | main.js:111-118 | the last `Eine Grundsatzfrage` paragraph with a colon before the end decides the quote: the trimmed text after its first colon |
| `SectionSplitter.QuoteDefaultsToEmpty` | main.js:93-118 | without a quote paragraph that has a colon, the quote is `''` |
| `FactExtractor.CaptionsDistinct` | main.js:176-205 | the six labels are pairwise different |
| `FactExtractor.RunLength` | main.js:174-198 | the run counted is all class characters and cannot be extended |
| `FactExtractor.OnlyWholeRunMatches` | main.js:174-198 | every match at a start captures exactly the whole run of class characters after the prefix |
| `FactExtractor.CaptureAt` | main.js:174-198 | at a given start, a match with capture length `m` exists exactly when the greedy run is a capture and `m` is its length; the capture is that slice of the input |
| `FactExtractor.SearchFrom` | main.js:174-198 | the match returned is real and no match starts between `from` and it; when nothing is returned, no match starts at `from` or later |
| `FactExtractor.FirstCapture` | main.js:174-198 | `s.match(pat)` yields a capture exactly when the pattern matches somewhere, and it is the capture of the leftmost match |
| `FactExtractor.OptionalFact` | main.js:175-206 | a conditional push adds at most one fact, of its own category, and adds one exactly when there is a capture |
| `FactExtractor.ConcatInDisplayOrder` | main.js:173-206 | ordered lists with ranks in consecutive ranges concatenate to an ordered list |
| `FactExtractor.SixInDisplayOrder` | main.js:173-206 | the six conditional pushes in source order give a list in display order |
| `FactExtractor.AssembleFacts` | main.js:171-206 | the facts are in display order, and the list is empty exactly when no pattern matched and the fee marker is absent |
| `FactExtractor.ExtractFacts` | main.js:171-206 | the facts appear in the order Format, Abstract, Deadline, Sprachen, Teilnehmer, Gebühr, each category at most once |
| `FactExtractor.LabelsAtMostOnce` | main.js:173-206 | no label appears twice in the facts list |
| `FactExtractor.ValueOfConcat` | main.js:173-206 | looking up a category in a concatenation finds it in the first part if it is there |
| `FactExtractor.ValueOfOtherRanks` | main.js:173-206 | a part holding only other categories has no value for a category |
| `FactExtractor.ValueOfSixParts` | main.js:173-206 | in the six-part list, a category's value comes from its own part |
| `FactExtractor.Wrap` | main.js:176-200 | a value is built exactly when there is a capture; with an empty lead and tail it is the capture |
| `FactExtractor.ValueOfOptionalFact` | main.js:175-206 | a conditional push holds the wrapped capture for its own category |
| `FactExtractor.ValueOfAssembleFacts` | main.js:173-206 | each category's value is what its pattern alone gives |
| `FactExtractor.ValueOfExtractFacts` | main.js:173-206 | each category's value in the facts list is the wrapped capture of its own pattern, or `keine` for the fee when the marker is present |
| `FactExtractor.ValueOfInOrderedList` | main.js:173-206 | in an ordered list, the value looked up for a category is that of the one fact of that category, and it is in the list |
| `FactExtractor.LeftmostCaptureShape` | main.js:174-198 | a leftmost capture is non-empty, all of its characters are in the class, and it occurs between the prefix and the suffix |
| `FactExtractor.CapturedRunShape` | main.js:174-198 | a capture at a start is non-empty, in the class, and prefix + capture + suffix occurs there |
| `FactExtractor.LeftmostCaptureUnique` | main.js:174-198 | a pattern has at most one leftmost capture |
| `FactExtractor.FormatFact` | main.js:174-177 | a Format fact is present exactly when its pattern matches. It is `Vorträge, ` followed by the leftmost capture, which is non-empty and holds no `<` |
| `FactExtractor.AbstractLengthFact` | main.js:180-183 | an Abstract fact is present exactly when its pattern matches. It is the leftmost capture, which is non-empty and holds no `<` |
| `FactExtractor.DeadlineFact` | main.js:186-189 | a Deadline fact is present exactly when its pattern matches. It is the leftmost capture, which is non-empty and holds no `<` |
| `FactExtractor.LanguagesFact` | main.js:192-195 | a Sprachen fact is present exactly when its pattern matches. It is the leftmost capture, which is non-empty and holds no `.` |
| `FactExtractor.ParticipantsFact` | main.js:198-201 | a Teilnehmer fact is present exactly when its pattern matches. It is `max. ` + d + ` Personen`, where d is the leftmost capture, a non-empty string of digits |
| `FactExtractor.FeeFact` | main.js:204-206 | the fact {Gebühr, keine} is in the list exactly when the input contains `keine Tagungsgebühr`, and no other fee fact occurs |
| `FactExtractor.GenerateFactsHtml` | main.js:208-222 | the facts list is produced when extraction found a fact; otherwise the input is returned as it is |
| `FactExtractor.UnmatchedInputIsReturned` | main.js:208-222 | the input comes back unchanged exactly when none of the five patterns matches and the fee marker is absent |

## Left out

- OnlyContentParagraphsAreBucketed: states only the "bucketed only if content paragraph" direction. The converse, that every content paragraph before the end is bucketed, is stated by `ContentParagraphGoesToCursorBucket`.
- The markdown lexer and parser (main.js:89, 161) are a foreign library. Tokens are an abstract datatype. `ParseMarkdownSections` takes the lexer as a function parameter, and `RenderTokens` takes the parser as one.
- Token kinds other than headings and paragraphs are lumped into `Other`. The splitter only asks whether a token is a heading or a paragraph. A paragraph is modelled by its text alone.
- The `!tokens` test in `renderTokens` (main.js:155): a Dafny sequence is never null or undefined.
- `RenderTokens`: the copy of the token list and its `links` field (main.js:158-159) are parser input plumbing.
- Fetching the markdown, the HTTP status check, the empty-file check, `async`/`await` and the try/catch in `loadContent` (main.js:255-287) are network I/O and error plumbing.
- DOM access and UI wiring: `showError`, `hideLoading`, `injectContent`, `initNavigation`, `init`, the scroll and click listeners and the `setTimeout` timing (main.js:17-77, 229-250, 292-313).
- Console logging (main.js:274, 284).
- The configuration constants (main.js:10-14) are used only by the left-out I/O and UI code.
- `GenerateFactsHtml`: the HTML template (main.js:209-218) is presentational. The result is modelled as the list of facts it shows, one list item per fact, in order, each with its caption (`Caption`) and value. It is not modelled as its exact markup and whitespace.
- Characters are Dafny `char`s, which are Unicode scalar values, while a JavaScript string is a sequence of UTF-16 code units. A character outside the Basic Multilingual Plane is one `char` here but two code units in JavaScript, and a lone surrogate cannot be represented at all. None of the markers, patterns or white-space characters involved is a surrogate or outside that plane, so the sorting and extraction are the same; only string lengths and indices differ for such text. The model does no Unicode normalisation.
