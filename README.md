# Note analysis and categorisation handlers

A Dafny model of the two HTTP route handlers of a small note-taking web
application. `POST /api/analyze` checks the note and asks a hosted inference
service for a sentiment classification and a summary of it. It answers with
the label that scores highest and with up to five keywords cut out of the
summary. `POST /api/categorize` checks the note and asks the same service to
classify it against ten fixed categories. It answers with a one-element list
holding the entry that scores highest.

Each handler is a pure function. The service is never called. The replies
the service would give are parameters: a reply either threw (`Remote.Threw`)
or returned a value. Each handler returns an `Exchange`: the remote calls it
made, in order, and the HTTP response (status and JSON body).

Modules:

- `Js` (js.dfy): JavaScript truthiness of the `note` field, the code points
  that `\s` matches, and `String.length` counted in UTF-16 code units.
- `Ranking` (ranking.dfy): `response.sort((a, b) => b.score - a.score)` as
  a stable insertion sort on a sequence. It is proved to be a permutation, to
  be descending and to be stable. These three facts are proved to determine
  its result uniquely. Its first entry is proved to be the earliest entry of
  maximal score.
- `Tokens` (tokens.dfy): `text.split(/[.,;\s]+/)`. The pieces and the
  delimiter runs between them are proved to rebuild the text, with every run
  maximal. That decomposition is proved unique. Every piece is proved to be
  a substring of the text with a delimiter or the text's edge on each side.
- `Http` (http.dfy): remote outcomes, the remote calls, response bodies and
  responses.
- `Analyze` (analyze.dfy) and `Categorize` (categorize.dfy): the two handlers.

## Model

| member | source | states |
|---|---|---|
| `Analyze.Post` | src/app/api/analyze/route.ts:13-54 | It answers 400 "Note is required" exactly when the note is falsy, and then makes no remote call. Otherwise it calls text classification first. It calls summarization only if classification did not throw and its reply could be ranked. Status 500 with the generic analyze error happens exactly when a remote call threw or the classification reply could not be sorted, and the body then holds no partial result. Status 200 happens exactly when both calls returned and the sentiment was found, and the body then holds exactly the sentiment and the keywords. |
| `Analyze.Sentiment` | src/app/api/analyze/route.ts:27-32 | It throws exactly when the reply is a truthy non-array with a positive `length`, which has no `sort` method. The result is "Neutral" when the reply is falsy, an empty list, or a non-array without a positive `length`. For a non-empty list it is the label of the earliest entry whose score is at least every other score. |
| `Analyze.Keywords` | src/app/api/analyze/route.ts:40-44 | The result is `["No keywords found"]` when the summary text is missing or empty. For any other text it has at most 5 words. Each word is longer than 3 UTF-16 units, holds no delimiter and is a piece of the text's split. |
| `Analyze.KeywordsPlaceholderExactly` | src/app/api/analyze/route.ts:40-44 | The keyword list is the placeholder if and only if the summary text is missing or empty. |
| `Analyze.LongWords` | src/app/api/analyze/route.ts:43 | The filter keeps only words longer than 3 units, and only words of its input. |
| `Analyze.LongWordsAt` | src/app/api/analyze/route.ts:43 | A long word whose rank among the long words is n is element n of the filtered list, so the filter keeps the original order. |
| `Analyze.LongWordsCount` | src/app/api/analyze/route.ts:43 | The filtered list holds exactly as many words as there are long words. |
| `Analyze.FirstLongWords` | src/app/api/analyze/route.ts:43 | Filter then `slice(0, 5)`: at most 5 words, each long and each from the input. |
| `Analyze.FirstLongWordsRanks` | src/app/api/analyze/route.ts:43 | The result has min(5, number of long words) elements. The long word of rank n < 5 is element n, so the result is the first qualifying words in left-to-right order. |
| `Analyze.KeywordsAreFirstLongWords` | src/app/api/analyze/route.ts:41-43 | For a non-empty summary, the keyword list has min(5, number of long pieces of the split) elements. The long piece of rank n < 5 is keyword n, so the keywords are the first long pieces in left-to-right order. |
| `Analyze.NoLongWordNoKeywords` | src/app/api/analyze/route.ts:41-43 | A non-empty summary with no word longer than 3 gives the empty list, not the placeholder. |
| `Analyze.KeywordIsWordOfSummary` | src/app/api/analyze/route.ts:43 | Every keyword is a substring of the summary text with a delimiter or the text's edge on each side. |
| `Analyze.PlaceholderIsNoWord` | src/app/api/analyze/route.ts:40 | The placeholder contains a delimiter (a space), so the split can never produce it. |
| `Categorize.Post` | src/app/api/categorize/route.ts:13-58 | It answers 400 "Note is required" exactly when the note is falsy, and then makes no remote call. Otherwise it makes exactly one zero-shot call with the fixed candidate labels. It answers 500 with the generic categorize error exactly when the call threw. It answers 500 with the "Unexpected API response or no categories found" message exactly when the reply is not an array or is an empty array. It answers 200 exactly when the reply is a non-empty array, and the body is then a one-element list holding the top entry. |
| `Categorize.TopCategory` | src/app/api/categorize/route.ts:49-51 | For a non-empty reply the result has exactly one element, which is an element of the reply. Its score is at least every score in the reply, and it is the earliest such element. For an empty reply the result is empty. |
| `Categorize.CandidateLabelsDistinct` | src/app/api/categorize/route.ts:22-33 | The candidate list has 10 labels, all different. The labels and their order (Work, Personal, Shopping, Health, Finance, Ideas, Learning, Travel, Social, General) are given by the constant `CandidateLabels` itself, not by this lemma. |
| `Ranking.EarliestMaxIndex` | src/app/api/categorize/route.ts:49-51 | The index returned holds a score at least every other score, and every earlier entry scores strictly lower. |
| `Ranking.InsertAddsEntry` | src/app/api/categorize/route.ts:49-50 | An insertion gives the list with one more entry: the multiset grows by exactly that entry. |
| `Ranking.InsertKeepsBound` | src/app/api/categorize/route.ts:49-50 | Inserting an entry scoring at most a bound into a list whose scores are all at most that bound keeps every score at most the bound. |
| `Ranking.InsertKeepsDescending` | src/app/api/categorize/route.ts:49-50 | Inserting into a descending list keeps it descending. |
| `Ranking.SortIsPermutation` | src/app/api/categorize/route.ts:49-50 | The sorted list is a permutation of the input: the multisets of entries are equal. |
| `Ranking.SortIsDescending` | src/app/api/categorize/route.ts:49-50 | The scores of the sorted list never increase. |
| `Ranking.WithScoreOfInsert` | src/app/api/categorize/route.ts:49-50 | An insertion places the new entry before every old entry of the same score, so entries of one score keep their order. |
| `Ranking.SortIsStable` | src/app/api/categorize/route.ts:49-50 | For every score, the entries with that score appear in the sorted list in their original order. |
| `Ranking.DescendingDeterminedByScores` | src/app/api/categorize/route.ts:49-50 | Two descending lists that agree on the entries of every score are equal. |
| `Ranking.SortIsUnique` | src/app/api/categorize/route.ts:49-50 | Any descending list that keeps each score's entries in their input order equals the sort. So the model gives the only result a stable descending sort can give. |
| `Ranking.HeadIsEarliestMax` | src/app/api/analyze/route.ts:30 | The first entry after sorting is the earliest entry of maximal score. |
| `Tokens.SplitIsMaximal` | src/app/api/analyze/route.ts:43 | The pieces and separators of the split rebuild the text. Every piece is delimiter-free, every separator is a non-empty run of delimiters, and every inner piece is non-empty, so each run is maximal. |
| `Tokens.MaximalSplitIsUnique` | src/app/api/analyze/route.ts:43 | Any cut of the text at maximal delimiter runs is exactly the split's pieces and separators. |
| `Tokens.JoinPieceIsDelimited` | src/app/api/analyze/route.ts:43 | Once pieces and non-empty delimiter runs are laid end to end, each piece has a delimiter or an edge of the text on each side. |
| `Tokens.PieceIsDelimited` | src/app/api/analyze/route.ts:43 | Every piece of the split is a substring of the text bounded by delimiters or by the text's edges. |
| `Tokens.WordLengthIsFirstDelimiter` | src/app/api/analyze/route.ts:43 | A prefix of the text is free of delimiters if and only if it is no longer than `WordLength`, so `WordLength` is where the first delimiter sits. |
| `Tokens.RunLengthIsFirstNonDelimiter` | src/app/api/analyze/route.ts:43 | A prefix of the text is made only of delimiters if and only if it is no longer than `RunLength`. This is the greedy `+` of the regular expression. |
| `Tokens.StepParts` | src/app/api/analyze/route.ts:43 | The first word is free of delimiters, the first run after it is a non-empty run of delimiters, and the text after that run does not start with a delimiter. |
| `Tokens.MaximalSplitHead` | src/app/api/analyze/route.ts:43 | In any cut of the text at maximal delimiter runs, the first piece is the longest delimiter-free prefix and the first run is the longest delimiter run after it. |
| `Js.Truthy` | src/app/api/analyze/route.ts:16 | The test `!note` of both handlers (also src/app/api/categorize/route.ts:16): a value is falsy exactly when it is undefined, null, false, 0, NaN or the empty string; arrays, objects, non-zero numbers and non-empty strings are truthy. |
| `Js.IsWhiteSpace` | src/app/api/analyze/route.ts:43 | The `\s` class: exactly the ECMAScript WhiteSpace code points (tab, vertical tab, form feed, U+FEFF and the Zs space separators U+0020, U+00A0, U+1680, U+2000 to U+200A, U+202F, U+205F, U+3000) and LineTerminator code points (U+000A, U+000D, U+2028, U+2029). |
| `Tokens.IsDelimiter` | src/app/api/analyze/route.ts:43 | The class `[.,;\s]`: a full stop, a comma, a semicolon or a `\s` character. |
| `Tokens.Split` | src/app/api/analyze/route.ts:43 | `text.split(/[.,;\s]+/)`. It always has at least one piece. It is characterised by `Tokens.SplitIsMaximal` (the pieces and maximal delimiter runs rebuild the text) and `Tokens.MaximalSplitIsUnique` (no other cut at maximal runs exists). |
| `Ranking.SortByScoreDesc` | src/app/api/categorize/route.ts:50 | `.sort((a, b) => b.score - a.score)`, also at src/app/api/analyze/route.ts:30. It keeps the length; `Ranking.SortIsPermutation`, `Ranking.SortIsDescending`, `Ranking.SortIsStable` and `Ranking.SortIsUnique` characterise it as the one stable descending arrangement of its input. |
| `Analyze.IsLong` | src/app/api/analyze/route.ts:43 | `word.length > 3`, with `length` counted in UTF-16 code units (`Js.Utf16Length`). |
| `Http.BadRequest` | src/app/api/analyze/route.ts:17 | The answer of both handlers to a falsy note (also src/app/api/categorize/route.ts:17): status 400 with an error body, whose message is "Note is required". |
| `Js.Utf16Length` | src/app/api/analyze/route.ts:43 | `word.length` counts UTF-16 code units: between one and two per character, and zero only for the empty string. |

## Behaviour worth noting

- The placeholder keyword is used only when `summary_text` is missing or
  empty. A summary without any word longer than three characters gives an
  empty list (`Analyze.NoLongWordNoKeywords`).
- Of several entries with the top score, the earliest one wins, because
  `Array.prototype.sort` is stable.
- The labels the service returns are never checked against
  `CandidateLabels`, so the model places no such constraint on the reply
  either.

## Left out

- The page component (src/app/page.tsx): React state, `fetch` calls and
  rendering are presentation and asynchronous UI, not handler logic.
- The module-level check that the service credential is set, and the client
  construction: these are process start-up and environment I/O.
- The `HfInference` client and its network calls: the replies are inputs.
  The model names and the note each call carries are recorded in
  `Exchange.calls`.
- `request.json()` parsing, `NextResponse.json` serialisation and
  `console.error` logging are framework I/O. An exception thrown by
  `request.json()` (a malformed body) is not modelled.
- Malformed reply entries: an entry without a numeric `score`, a NaN score
  (which breaks the comparator), a missing `label`, or a `summary_text` that
  is not a string. Scores are treated as totally ordered reals.
- Analyze.Sentiment: a truthy classification reply that is not an array but
  has its own `sort` method (a typed array, say) is not modelled. Every
  other truthy non-array is modelled by whether its `length` is above zero.
- The in-place reordering of the reply array by `sort`: the array is local to
  the handler and nothing else observes it, so the model sorts a sequence.
- JavaScript strings may hold lone surrogate code units. Dafny characters
  are Unicode scalar values, so such strings cannot be represented. The
  `\s` class follows the ECMAScript WhiteSpace and LineTerminator code
  points, with category Zs as of Unicode 15.
