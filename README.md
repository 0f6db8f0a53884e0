# Search excerpt generator, modelled in Dafny

This project models `src/index.js`, a search-excerpt generator. It takes a search query and
a body of text, and it produces a short HTML excerpt of the body that shows the words around
the matches and wraps the matched words in `<strong>`.

The pipeline as modelled has these stages:

- **Query preprocessing** (`Tokens`). The query is lower-cased and split on whitespace.
  - Each word is cut down to the text between its first and last `a`–`z` letter
    (`stripTrailingLeadingPunctuation`).
  - A compound such as `foo-bar` or `foo:bar` is reduced to its first `letters[:-]letters`
    substring.
  - Dutch stop words are dropped (`stopWordFilter`, a 52-word list).
- **Matching** (`Tokens`). The body's lower-cased words go through the same normalisation. The
  result is the increasing list of positions whose reduced word is a query token.
- **Windows** (`Windows`, `Sections`). `Section` is modelled as a class with fields `start`,
  `finish`, `words` and `offsets`. Its methods are proved against the value-level `Window`
  functions.
  - A match at position `index` gets a window that is either `words` wide on each side or
    runs to the nearest boundary word.
  - `append` merges two windows in place. `join` merges into a copy. `length` counts
    characters plus the separating spaces.
- **Greedy assembly** (`Windows`, `Excerpts`). `excerptFromArr` merges the match windows from
  left to right and stops at the first merge that would be longer than `maxLength`.
- **Fallback** (`Excerpts`). When nothing matches, the output is the whole words that fit
  `maxLength - 3` characters, followed by `…`.
- **Rendering** (`Escaping`, `Render`). `toHTML` escapes `& < > " ' /`, emphasises the
  offsets, trims the line and appends ` …`.

Boundary patterns (JavaScript regular expressions in the source) are abstract predicates on
words, each with its `include` flag.

Three details of the code are easy to misread, and the model follows the code in each:

- The stop list in the code has 52 entries (`src/index.js:89`).
- The fallback appends `…` with no space before it. An empty body therefore gives
  `No content…`, and a fallback excerpt ends in `…` rather than ` …` (`src/index.js:11`).
- `append` runs its offset loop up to `other.indicies` itself rather than its length
  (`src/index.js:268`). For the one-element arrays that occur, this adds the shifted offset
  only when it is positive.
  - `Windows.ZeroWidthKeepsOneOffset` proves one consequence: with zero words of context,
    only the first match of an excerpt is ever emphasised.

## Model

| member | source | states |
|---|---|---|
| `Text.Words` | src/index.js:14 | the words found by `match(/\S+/g)` are non-empty and contain no JavaScript whitespace; `Text.WordsCollapse` and `Text.WordsUnique` state which words they are |
| `Text.WordsCollapse` | src/index.js:14 | joining the words by single spaces gives the text with its leading and trailing whitespace removed and each inner whitespace run replaced by one space, a reference defined character by character |
| `Text.WordsUnique` | src/index.js:14 | the words are the only list of non-empty, whitespace-free words whose space-joined text is that collapsed text, so they are the maximal non-whitespace runs in order |
| `Text.WordsOfJoin` | src/index.js:62-77 | splitting `words.join(' ')` on whitespace gives the same words back |
| `Text.JoinLength` | src/index.js:281-287 | words joined by single spaces are as long as their characters plus one space between neighbours |
| `Text.WordsLower` | src/index.js:169 | lower-casing and then splitting gives the lower-cased words of the original split, so match positions in the lower-cased body index the body's own words |
| `Tokens.NormaliseSpec` | src/index.js:57-59 | a token survives iff it contains two `a`–`z` letters; the result runs from the first such letter to the last, with interior punctuation kept |
| `Tokens.Normalise` | src/index.js:57-59 | `stripTrailingLeadingPunctuation` as the leftmost match of `/[a-z].*[a-z]/`, or none; its contract is stated by `Tokens.NormaliseSpec` and `Tokens.NormaliseLetterBounded` |
| `Tokens.NormaliseLetterBounded` | src/index.js:57-59 | a surviving token starts and ends with a letter and is at least two characters long |
| `Tokens.FirstCompound` | src/index.js:137 | the first match of `/[a-z]+[:\-][a-z]+/`, or none; its contract is stated by `Tokens.FirstCompoundSpec` |
| `Tokens.FirstCompoundSpec` | src/index.js:137 | a compound piece exists iff some joiner is flanked by letters; it is the leftmost such joiner with the maximal letter runs on both sides |
| `Tokens.SplitCompound` | src/index.js:137 | the compound rule always yields exactly one piece |
| `Tokens.StopWordFilter` | src/index.js:88-94 | the filter returns the word itself iff it is not in the Dutch list, and `false` otherwise |
| `Tokens.StopWordsAreLetters` | src/index.js:89 | every listed stop word is all letters and at least two long, so it survives normalisation unchanged |
| `Tokens.CompoundIsNoStopWord` | src/index.js:137-141 | a piece that contains a joiner is never a stop word |
| `Tokens.ContributionSpec` | src/index.js:135-144 | a query word contributes nothing when normalisation fails; otherwise it contributes its compound piece (never a stop word), or the normalised word unless that is a stop word |
| `Tokens.TokensOf` | src/index.js:134-145 | the tokens the constructor's loop pushes for a list of query words; its contract is stated by `Tokens.TokensOfAppend`, `Tokens.QueryTokensClean` and `Tokens.StopWordsOnlyQuery` |
| `Tokens.QueryTokens` | src/index.js:128-145 | the generator's `tokens` for a query: the lower-cased query split on whitespace, then `TokensOf`; its contract is stated by `Tokens.QueryTokensClean` and `Tokens.StopWordsOnlyQuery` |
| `Tokens.QueryTokensClean` | src/index.js:128-145 | every stored token is letter-bounded and not a stop word |
| `Tokens.TokensOfAppend` | src/index.js:134-145 | the tokens of consecutive query words are the tokens of each part in query order, with duplicates kept |
| `Tokens.StopWordsOnlyQuery` | src/index.js:134-145 | a query made only of stop words gives no tokens |
| `Tokens.Matches` | src/index.js:171-186 | the positions `generateExcerpt` pushes into `indicies`; its contract is stated by `Tokens.MatchesSpec` and `Tokens.NoMatches`, and `Tokens.MatchIndices` is the loop proved equal to it |
| `Tokens.MatchesSpec` | src/index.js:166-186 | the recorded positions are strictly increasing (so none is repeated) and below the word count, and position `i` is recorded iff word `i` matches |
| `Tokens.NoMatches` | src/index.js:171-186 | when no word matches, no position is recorded |
| `Tokens.MatchIndices` | src/index.js:166-186 | the matching loop records exactly the matching positions in order |
| `Escaping.Entity` | src/index.js:38-45 | each entity starts with `&`, ends with `;` and contains no markup character or whitespace |
| `Escaping.EscapeHtml` | src/index.js:37-47 | the escaped text contains no raw `< > " ' /` and is never shorter; whitespace-free text stays whitespace-free |
| `Escaping.EscapeRoundTrip` | src/index.js:37-47 | unescaping the escaped text gives the original text, so escaping loses nothing |
| `Escaping.EscapePlain` | src/index.js:46 | text without any of the six characters is left exactly as it is |
| `Escaping.EscapeSolid` | src/index.js:46 | an escaped word is still a non-empty, whitespace-free word |
| `Windows.NearestBefore` | src/index.js:237 | the reversed-prefix search finds the nearest boundary word before the match, or reports that there is none |
| `Windows.NearestFrom` | src/index.js:245 | the suffix search finds the first boundary word after the match, or reports that there is none |
| `Windows.WindowAt` | src/index.js:237-257 | a new section satisfies `0 <= start <= index < finish <= n`, shows exactly the body words in that range, and marks only the match |
| `Windows.FixedWindow` | src/index.js:252-253 | in fixed mode, `start = max(index - w, 0)` and `finish = min(index + w + 1, n)` |
| `Windows.BoundedWindow` | src/index.js:237-250 | in boundary mode, no boundary word lies strictly between an edge and the match; the edge word is a boundary word, inside the window iff `include` is set, unless the window reaches that end of the body |
| `Windows.WindowAtMonotone` | src/index.js:237-253 | a later match never gets a window that starts or finishes earlier |
| `Windows.SliceEnd` | src/index.js:263 | JavaScript's `slice(0, end)` bound never exceeds the length and is `end` itself when `end` is in range |
| `Windows.Appended` | src/index.js:261-273 | the fields `append` leaves in the receiver; its contract is stated by `Windows.AppendedSpec`, `Windows.AppendContiguous` and `Windows.MergeParts` |
| `Windows.AppendedSpec` | src/index.js:261-273 | a merge keeps `start` and takes `other.finish`; overlap is trimmed by `finish - other.start` words, a gap inserts `…`; the other's offset, shifted past the kept words, is added iff it is positive |
| `Windows.AppendContiguous` | src/index.js:262-271 | merging a window with one that starts inside it or right after it shows exactly the body words of their union |
| `Windows.Len` | src/index.js:281-287 | what `length()` returns for a section's fields; its contract is stated by `Windows.LenIsJoinedLength` |
| `Windows.LenIsJoinedLength` | src/index.js:281-287 | `length()` equals the length of the section's words joined by spaces |
| `Windows.Greedy` | src/index.js:18-24 | the loop of `excerptFromArr` from a given section over the remaining matches; its contract is stated by `Windows.GreedyCut` and `Windows.GreedyTracks` |
| `Windows.MergedStep` | src/index.js:18-24 | merging one more window first is the same as merging from the updated accumulator |
| `Windows.GreedyCut` | src/index.js:18-24 | assembly keeps the longest run of leading merges whose every intermediate length is at most `maxLength`, and stops at the first merge that is longer; the first section is never measured |
| `Windows.OverlapKeepsPrefix` | src/index.js:262-263 | when the next window overlaps, trimming by index arithmetic removes exactly the overlap, so every word already shown stays in place |
| `Windows.MergeParts` | src/index.js:261-273 | a merge yields the kept words followed by the next window's words; the match lands at its shifted offset, and only that offset is added |
| `Windows.StepOffsets` | src/index.js:268-270 | after a merge the offsets still increase, lie no further than the new match, and point at words that pass the match test |
| `Windows.TracksStep` | src/index.js:261-273 | merging the window of a later match keeps the assembly invariant: the section ends like that match's own window, and its offsets increase and point at matched words |
| `Windows.GreedyTracks` | src/index.js:18-24 | the greedy loop over increasing matches returns a well-formed window that keeps the first window's start |
| `Windows.Assembled` | src/index.js:14-24 | the section `excerptFromArr` renders: the first match's window, then `Greedy` over the other matches; its contract is stated by `Windows.AssembledSane` |
| `Windows.AssembledSane` | src/index.js:15-26 | the assembled window is well formed and starts where the first match's window starts; it emphasises only matched words in increasing order; it is the first window alone or no longer than `maxLength` |
| `Windows.ZeroWidthKeepsOneOffset` | src/index.js:268-270 | with zero words of context no merge adds an offset, so only the first match is emphasised |
| `Render.TrimStartSpec` | src/index.js:300 | trimming the start removes exactly the leading whitespace: the rest is a suffix that is empty or starts with a non-whitespace character |
| `Render.TrimEndSpec` | src/index.js:300 | trimming the end removes exactly the trailing whitespace: the rest is a prefix that is empty or ends with a non-whitespace character |
| `Render.TrimSolidEnds` | src/index.js:300 | `trim()` leaves text unchanged when it neither starts nor ends with whitespace |
| `Render.ShownStep` | src/index.js:292-298 | each loop step appends ` <strong>word</strong>` for an offset and ` word` otherwise |
| `Render.PieceReadBack` | src/index.js:293-297 | a rendered word is wrapped in `<strong>` iff it was marked, and unescaping its content gives the word back |
| `Render.ShownReadBack` | src/index.js:292-298 | word `k` of a section is rendered inside `<strong>` iff `k` is one of its offsets, and it reads back as the word |
| `Render.SpacedIsJoined` | src/index.js:292-298 | prefixing each piece with a space is one space followed by the pieces joined by spaces |
| `Render.JoinedEnds` | src/index.js:300 | whitespace-free words joined by spaces neither start nor end with whitespace, so `trim()` only removes the space the loop writes first |
| `Render.Html` | src/index.js:289-301 | what `toHTML()` returns for a section's fields; its contract is stated by `Render.HtmlWords`, `Render.HtmlClosing` and `Render.HtmlOpening` |
| `Render.HtmlWords` | src/index.js:289-301 | the rendering, split on whitespace, is the leading `…` (iff `start != 0`), one escaped and emphasised piece per word, and the closing `…`, all joined by single spaces |
| `Render.HtmlClosing` | src/index.js:300 | the rendering always ends with ` …` |
| `Render.HtmlOpening` | src/index.js:290 | the rendering begins with `…` when `start != 0` |
| `Sections.Section.constructor` | src/index.js:210-259 | the new section's fields are the window around the match |
| `Sections.Section.Empty` | src/index.js:304 | a section built without an index has no words and no offsets |
| `Sections.Section.DeepCopy` | src/index.js:303-310 | the copy is a new section with the same fields |
| `Sections.Section.Append` | src/index.js:261-273 | the receiver's new fields are the merge of its old fields with the other section's |
| `Sections.Section.Join` | src/index.js:275-279 | returns a new section holding the merge; neither the receiver nor the other section changes |
| `Sections.Section.Length` | src/index.js:281-287 | returns the sum of word lengths plus the number of words minus one, which is the joined text's length |
| `Sections.Section.ToHtml` | src/index.js:289-301 | returns the rendering of the section's fields |
| `Excerpts.FitCountSpec` | src/index.js:69-75 | the first `k` words are kept iff their characters, spaces not counted, add up to no more than the budget |
| `Excerpts.WholeWords` | src/index.js:61-78 | what `getWholeWordsWithMaxChars` returns; its contract is stated by `Excerpts.WholeWordsSpec`, and `Excerpts.GetWholeWordsWithMaxChars` is the loop proved equal to it |
| `Excerpts.WholeWordsSpec` | src/index.js:61-78 | the fallback text is the longest prefix of whole words that fits the budget, joined by single spaces |
| `Excerpts.GetWholeWordsWithMaxChars` | src/index.js:61-78 | the loop with its running length returns that longest fitting prefix, or `No content` for a body without words |
| `Excerpts.ExcerptOf` | src/index.js:9-27 | what `excerptFromArr` returns; its contract is stated by `Excerpts.EmptyBody`, `Excerpts.NoMatchFallback` and `Windows.AssembledSane`, and `Excerpts.ExcerptFromArr` is the loop proved equal to it |
| `Excerpts.ExcerptFromArr` | src/index.js:9-27 | returns the fallback plus `…` for no matches, otherwise the rendering of the greedily assembled window |
| `Excerpts.MatchesValid` | src/index.js:166-187 | the match positions are increasing and index the body's own (not lower-cased) words |
| `Excerpts.PushTokens` | src/index.js:135-144 | one pass of the constructor's loop appends exactly the word's contribution, as `Tokens.ContributionSpec` describes it: nothing when normalisation fails, otherwise the compound piece or the normalised word unless it is a stop word |
| `Excerpts.ExcerptGenerator.constructor` | src/index.js:126-151 | the stored tokens are the query's preprocessed tokens; the options get `words = 4` and no boundary rule by default |
| `Excerpts.ExcerptGenerator.GenerateExcerpt` | src/index.js:161-188 | returns the fallback when there are no tokens, otherwise the excerpt for the matching positions |
| `Excerpts.Excerpt` | src/index.js:161-188 | what `generateExcerpt` returns for the generator's tokens, `maxLength` and options; its contract is stated by `Excerpts.StopWordQuery`, `Excerpts.NoMatchFallback`, `Excerpts.MatchedExcerpt` and `Excerpts.MatchedExcerptWords` |
| `Excerpts.EmptyBody` | src/index.js:10-11 | a body without words gives `No content…` whatever the query |
| `Excerpts.NoMatchFallback` | src/index.js:10-11 | when no body word matches, the excerpt is the whole-word fallback followed by `…` |
| `Excerpts.StopWordQuery` | src/index.js:162-163 | a query of stop words only has no tokens, so every excerpt is the fallback |
| `Excerpts.MatchedPositions` | src/index.js:166-187 | with a matching body word there are match positions, and each one is the position of a body word that matches once lower-cased |
| `Excerpts.MatchedExcerpt` | src/index.js:161-188 | with a match, the excerpt renders one window. The window starts where the first match's window starts, emphasises only matching words in increasing order, and is that first window alone or within `maxLength` |
| `Excerpts.MatchedExcerptWords` | src/index.js:161-188 | with a match, the excerpt read as words is `…` (unless the window starts at the first word), one escaped piece per window word with exactly the offsets emphasised, and the closing `…` |

## Left out

- Regular expressions: the boundary patterns in `contextOptions.regex` are abstract predicates on words, and the `hasOwnProperty` shape test becomes a three-case datatype. The JavaScript RegExp engine is not part of this model.
- Unicode: lower-casing is ASCII only. Lengths count code points, not UTF-16 code units. The whitespace set is the ECMAScript one, written out.
- The `NaN` entries that `append`'s loop pushes when an offset is above 1. They never equal a position in `toHTML`'s `indexOf`, so they are left out.
- `extend`: the generic property copy is replaced by an options record whose missing keys default to `words = 4` and no boundary rule.
- Runtime type errors: a non-string query or body, or a non-numeric `maxLength`. Context widths are natural numbers, so negative `words` is not modelled.
- build.js is bundling configuration and is not part of this model.
- Sections.Section.Append: requires the other section to be a different object. Appending a section to itself is not modelled; `join` always appends to a fresh copy.
- Sections.Section.Empty: the source leaves the fields of `new Section()` undefined until `deepCopy` sets them. The model starts them at zero and empty.
- Render.HtmlOpening: proves only that a window not starting at the first body word renders with a leading `…`. The converse fails when the first shown word itself begins with `…`, so it is not claimed.
