# Knowledge-base retrieval and prompt assembly, in Dafny

This project models the retrieval core of a small question-answering service.
`app/kb.py` holds a knowledge base written as one text document. Blocks in that
document are separated by `##`. The service turns each block into an entry
(id, title, body, `#tags`) and stores a term-frequency vector and a norm for
it. A question is answered by scoring every entry with a cosine score. Entries
with a positive score are kept, sorted best first and cut to `top_k`. The
service holds two indexes: a default one built from a file, and an optional
custom one uploaded as text. `app/llm.py` builds, from the entries found, the
context text and the user message it sends to YandexGPT or GigaChat.

Modules, in dependency order:

- `Text` (`text.dfy`) models the Python string operations the core relies on:
  `strip`, `splitlines`, `split("##")` and `join`. It also holds the `Result`
  and `Option` types.
- `Vectors` (`vectors.dfy`) holds `_tokenize`, `_vectorize`, `_norm` and
  `_cosine`. A frequency dict is an insertion-ordered list of `Term`s.
- `KnowledgeIndex` (`index.dfy`) holds `_build_index`: the blocks, the tag
  regex, the lines of a block, the entry, and the three parallel lists.
- `Ranking` (`ranking.dfy`) holds the scoring loop, the stable descending sort
  and the `[:top_k]` cut of `search_similar`.
- `Lifecycle` (`lifecycle.dfy`) has the class `KnowledgeBase`. It holds the
  `_default_index` and `_custom_index` slots and the methods that fill, swap,
  clear and query them.
- `Prompt` (`prompt.dfy`) holds `_build_context`, the `user_text` built by both
  providers, the YandexGPT `messages` and the GigaChat prompt string.

Numbers are exact. A frequency count is a `nat`. `_norm` is modelled by its
square, `NormSquared`, which is a positive `nat`. `_cosine` is modelled by its
square, `Cosine`, a non-negative `real`. Squaring is monotone on non-negative
numbers, so it changes neither the "score > 0" filter nor the order of scores.
`CosineCompare` shows that two scores compare as two integer products.

Three facts about `_build_index` follow from the code's order of steps:

- **Ids have no gaps.** Blank chunks are filtered out (`app/kb.py:57`) before
  `enumerate(blocks, 1)` numbers the blocks (`app/kb.py:60`). So the ids are
  exactly 1..n in block order (`IndexOfWellFormed`), and blank chunks before a
  block use up no id: `"## \n\n## Title\nBody"` gives one entry, with id 1
  (`BlankChunksThenBlock`, `BlankChunksExample`).
- **The skip is dead code.** `if not lines: continue` (`app/kb.py:62-63`) never
  fires: every block is stripped and non-empty, so it has a non-blank line.
  `BuildDescribes` proves this.
- **Tags are read from the stripped block** (`app/kb.py:67`). Stripping removes
  only whitespace, which no tag holds, so the raw chunk has the same tags
  (`TagsOfStrip`).

One more behaviour the code has: `search_similar` loads the default index
before it picks a slot. So when the default file is missing, a search fails
even if a custom index is loaded (`CustomSearchWithoutDefaultFile`).

## Model

| member | source | states |
|---|---|---|
| Text.Strip | app/kb.py:57 | `str.strip`: the result is empty exactly when the input is all whitespace; otherwise neither end is whitespace; it is never longer than the input |
| Text.StripInfix | app/kb.py:57 | the stripped text is an infix `s[i..j]` with only whitespace before and after it |
| Text.StripAppendSpace | app/llm.py:16 | a whitespace character appended to a text does not change what `strip` returns |
| Text.SplitOnDelimiter | app/kb.py:57 | `split("##")` returns at least one piece, no piece contains `"##"`, and the first piece is a prefix of the text |
| Text.SplitOnDelimiterJoin | app/kb.py:57 | joining the pieces of `split("##")` with `"##"` gives the text back |
| Text.SplitOnDelimiterOfJoin | app/kb.py:57 | splitting undoes joining when no part holds `#` |
| Text.SplitOnDelimiterWhole | app/kb.py:57 | a text without `"##"` is one piece |
| Text.SplitOnDelimiterLeftmost | app/kb.py:57 | the split is the leftmost one: no piece except the last ends with `#`, so `"###"` splits as `["", "#"]` |
| Text.DelimiterAfterFirst | app/kb.py:57 | when the text splits into more than one piece, the first piece is followed in the text by `"##"` |
| Text.SplitLines | app/kb.py:61 | line splitting before blank lines are dropped: at least one piece, no piece holds a line break, and the first piece is a prefix of the text |
| Text.SplitLinesAllSpace | app/kb.py:61 | if every line is whitespace, the whole text is whitespace: splitting loses no visible character |
| Text.SplitLinesBreak | app/kb.py:61 | the first line break ends the first line, and the rest is split on its own |
| Text.SplitLinesWhole | app/kb.py:61 | a text with no line break is one line |
| Text.SplitLinesOfJoin | app/kb.py:61 | splitting into lines undoes joining with `"\n"` when no part holds a line break |
| Text.Join | app/kb.py:66 | `sep.join(parts)`: the joined text starts with the first part |
| Text.JoinSnoc | app/llm.py:19 | joining one more part adds exactly one separator and then that part |
| Text.RunMaximal | app/kb.py:31-32 | a regex run `[...]+` is made of class characters and stops at the first character outside the class |
| Vectors.LowerChar | app/kb.py:36 | lower-casing one character keeps word characters word characters and separators separators, maps every word character into `[а-яa-z0-9_]`, and leaves those unchanged |
| Vectors.Lower | app/kb.py:36 | the model's per-character lower-casing of `text.lower()` keeps the length and moves no token boundary: each position is a word character before exactly when it is one after |
| Vectors.Words | app/kb.py:32 | `_word_re.findall` returns non-empty tokens made only of word characters |
| Vectors.WordsSplit | app/kb.py:32 | a non-word character splits the text: the words on each side are found independently |
| Vectors.WordsCoverWordChars | app/kb.py:32 | the words, concatenated, are exactly the text's word characters in order |
| Vectors.WordsOfJoin | app/kb.py:32 | words joined by single spaces are found again as the same words |
| Vectors.Tokenize | app/kb.py:35-36 | every token is non-empty and holds only lower-case `[а-яa-z0-9_]` |
| Vectors.TokenizeIdempotent | app/kb.py:35-36 | tokenizing the tokens joined by spaces gives the same tokens |
| Vectors.TokenizeExample | app/kb.py:35-36 | `"Hello, мир_42!"` tokenizes to `["hello", "мир_42"]` |
| Vectors.Get | app/kb.py:43 | `get(w, 0)` is 0 for a missing key and at least 1 for a present key when all counts are positive |
| Vectors.Increment | app/kb.py:43 | `freq[w] = freq.get(w, 0) + 1` raises the count of `w` by one, leaves every other count alone and adds one to the total |
| Vectors.IncrementKeys | app/kb.py:43 | after incrementing, the keys are the old keys plus `w` |
| Vectors.IncrementDistinct | app/kb.py:43 | incrementing keeps the keys distinct, so the list stays a dict |
| Vectors.IncrementPositive | app/kb.py:43 | incrementing keeps every count at least 1 |
| Vectors.Frequencies | app/kb.py:39-44 | the dict's keys are the distinct tokens; every count is at least 1; the counts add up to the number of tokens |
| Vectors.FrequenciesCount | app/kb.py:39-44 | each key's count is the number of times the token occurs |
| Vectors.CountPositive | app/kb.py:39-44 | a token occurs a positive number of times exactly when it is among the tokens |
| Vectors.Vectorize | app/kb.py:39-44 | the counting loop builds the frequency dict, and each count is the token's number of occurrences |
| Vectors.NormSquared | app/kb.py:47-48 | the squared norm is never 0; it is 1 for the empty dict, never below the sum of squares, and equal to it when that sum is positive |
| Vectors.NormOfFrequencies | app/kb.py:47-48 | for a non-empty token list the squared norm is the sum of squares, which is at least the token count |
| Vectors.Dot | app/kb.py:52 | the dot product, summed over the query's keys only, is 0 against an empty document dict |
| Vectors.DotPositive | app/kb.py:52 | the dot product is positive exactly when some query key also has a positive count in the document |
| Vectors.DotIgnoresDocumentOnlyTerms | app/kb.py:52 | only the query's keys are summed: documents that agree on them get the same dot product |
| Vectors.DotOfFrequencies | app/kb.py:52 | for two frequency dicts the dot product is positive exactly when the question and the block share a token |
| Vectors.Cosine | app/kb.py:51-53 | the score is never negative, and it is positive exactly when the dot product is positive (so no division by zero can happen) |
| Vectors.CosineCompare | app/kb.py:51-53 | two documents' scores for one query compare as the integers `dot1² · norm2²` and `dot2² · norm1²` |
| KnowledgeIndex.Tags | app/kb.py:31 | `_tag_re.findall`: each tag found uses up at least two characters of the text, so there are at most half as many tags as characters |
| KnowledgeIndex.TagsAreTagRuns | app/kb.py:31 | every tag is non-empty and holds neither `#` nor whitespace |
| KnowledgeIndex.TagsOfTag | app/kb.py:31 | a `#` followed by a maximal non-empty run of characters that are neither `#` nor whitespace yields exactly that run as the next tag, and the scan goes on after it |
| KnowledgeIndex.TagsNoHash | app/kb.py:31 | text without `#` holds no tag |
| KnowledgeIndex.TagsAfterNoHash | app/kb.py:31 | text without `#` in front of a string adds no tag and hides none: a `#` right after a visible character still starts a tag |
| KnowledgeIndex.TagsLoneHash | app/kb.py:31 | a `#` followed by whitespace, another `#` or the end of the text starts no tag, and the scan goes on after it |
| KnowledgeIndex.TagsGluedExample | app/kb.py:31 | `"a#b"` has exactly the tag `"b"` |
| KnowledgeIndex.TagsSplit | app/kb.py:31 | whitespace ends every tag: the tags on each side of a whitespace character are found independently |
| KnowledgeIndex.TagsOfStrip | app/kb.py:57-67 | the tags of the stripped block are the tags of the raw chunk |
| KnowledgeIndex.NonBlank | app/kb.py:57 | stripping the pieces and dropping the empty ones keeps at most one string per piece |
| KnowledgeIndex.NonBlankTrimmed | app/kb.py:57 | every kept piece is non-empty and stripped |
| KnowledgeIndex.NonBlankEmpty | app/kb.py:57 | nothing is kept exactly when every piece is blank |
| KnowledgeIndex.NonBlankSkipBlank | app/kb.py:57 | blank pieces at the front leave no trace in what is kept |
| KnowledgeIndex.NonBlankAppend | app/kb.py:57 | the pieces kept from two lists in a row are those kept from the first, then those kept from the second: order is kept |
| KnowledgeIndex.NonBlankMembers | app/kb.py:57 | a string is kept exactly when it is non-empty and some piece strips to it: every non-blank piece survives, and nothing else appears |
| KnowledgeIndex.StripTrimmed | app/kb.py:57 | `strip()` leaves a string without surrounding whitespace unchanged |
| KnowledgeIndex.NonBlankOfTrimmed | app/kb.py:57 | pieces that are already stripped and non-empty are all kept, unchanged and in order |
| KnowledgeIndex.Blocks | app/kb.py:57 | the blocks are at most as many as the `"##"` chunks |
| KnowledgeIndex.BlocksTrimmed | app/kb.py:57 | every block is non-empty and stripped |
| KnowledgeIndex.BlocksWhole | app/kb.py:57 | a document without `"##"` that has visible text is one block: the stripped text |
| KnowledgeIndex.Lines | app/kb.py:61 | a block has no non-blank line exactly when it is all whitespace; each kept line is non-empty, on one line and stripped |
| KnowledgeIndex.EntryOf | app/kb.py:65-69 | the entry carries the given id and the block's tags; its title is non-empty, on one line and stripped |
| KnowledgeIndex.LinesOfJoin | app/kb.py:61 | stripped non-empty lines joined with `"\n"` are read back as exactly those lines |
| KnowledgeIndex.EntryOfLines | app/kb.py:61-66 | for a block made of stripped lines, the title is the first line and the body is the other lines joined with `"\n"` |
| KnowledgeIndex.Build | app/kb.py:58-74 | the three lists have one length, at most the number of blocks |
| KnowledgeIndex.BuildDescribes | app/kb.py:57-74 | on stripped non-empty blocks the skip never happens: block `k` becomes entry `k + 1` with its own vector and norm |
| KnowledgeIndex.IndexOf | app/kb.py:56-79 | on success the three lists have one length and at least one entry |
| KnowledgeIndex.IndexOfFails | app/kb.py:76-77 | `_build_index` raises exactly when every `"##"` chunk is blank |
| KnowledgeIndex.IndexOfEntries | app/kb.py:56-79 | on success there is one entry per block, in block order, with that block's entry and vector |
| KnowledgeIndex.IndexOfWellFormed | app/kb.py:56-79 | on success the lists have one length, there is at least one entry, the ids are 1..n with no gap, and every norm is its vector's norm |
| KnowledgeIndex.SingleBlock | app/kb.py:56-79 | a document without `"##"` that has visible text gives exactly one entry, with id 1 |
| KnowledgeIndex.BlocksOfTwo | app/kb.py:57 | two visible chunks without `#` around one `"##"` are two blocks, stripped, in order |
| KnowledgeIndex.BuildTwo | app/kb.py:60-69 | two stripped blocks become entries 1 and 2, in order |
| KnowledgeIndex.TwoBlocks | app/kb.py:56-79 | such a document gives exactly two entries, with ids 1 and 2, one per chunk |
| KnowledgeIndex.BlocksAfterBlankChunks | app/kb.py:57 | blank chunks before a block without `#` vanish: the document has that block alone, stripped |
| KnowledgeIndex.BlankChunksThenBlock | app/kb.py:57-60 | blank chunks in front of a block use up no id: that block is entry 1 |
| KnowledgeIndex.BlankChunksExample | app/kb.py:57-60 | `"## \n\n## Title\nBody"` gives exactly one entry, and its id is 1 |
| KnowledgeIndex.BlankChunks | app/kb.py:76-77 | a document made only of blank chunks raises |
| KnowledgeIndex.WhitespaceOnly | app/kb.py:76-77 | a whitespace-only document, the empty one included, raises |
| KnowledgeIndex.BuildLists | app/kb.py:58-74 | the loop builds exactly the lists `Build` describes |
| KnowledgeIndex.BuildIndex | app/kb.py:56-79 | `_build_index` returns a well-formed index, or raises exactly when every chunk is blank |
| Ranking.Rows | app/kb.py:109 | `zip` yields as many rows as the shortest of the three lists |
| Ranking.Scored | app/kb.py:108-112 | the loop keeps at most one item per row, and every kept score is positive |
| Ranking.ScoredMembers | app/kb.py:108-112 | an item is kept exactly when it is some row's entry with that row's score and the row shares a term with the query |
| Ranking.ScoredInIndexOrder | app/kb.py:108-112 | with ids numbered by row, the kept items come in increasing id order |
| Ranking.NothingShared | app/kb.py:108-112 | no item is kept when no row shares a term with the query |
| Ranking.ScoreRows | app/kb.py:108-112 | the scoring loop builds exactly the list `Scored` describes |
| Ranking.Insert | app/kb.py:114 | inserting an item adds exactly that item, as multisets |
| Ranking.SortDesc | app/kb.py:114 | `sort(key=score, reverse=True)` returns a permutation with scores in non-increasing order |
| Ranking.SortDescStable | app/kb.py:114 | on a list whose ids increase, as `Scored`'s do, items with equal scores keep their input order |
| Ranking.Ranked | app/kb.py:108-114 | the positively scored rows after the sort: at most one per entry, every score positive, scores non-increasing |
| Ranking.SliceEnd | app/kb.py:115 | `[:top_k]` never ends past the list; for `top_k >= 0` it keeps at most `top_k` items; a negative `top_k` drops items from the end |
| Ranking.Search | app/kb.py:105-115 | the ranked rows cut by `[:top_k]`: at most `top_k` items when `top_k >= 0`, and no more than the index has entries |
| Ranking.SearchShape | app/kb.py:101-115 | the result has positive scores only, in non-increasing order, no more items than the index has entries, and at most `top_k` items |
| Ranking.SearchTopK | app/kb.py:114-115 | the result is a sub-multiset of the positively scored rows; every row left out scores no higher than any row kept; a result shorter than `top_k` holds all of them |
| Ranking.SearchTiesInIndexOrder | app/kb.py:108-115 | with ids numbered by row, equal scores come out in increasing id order, i.e. in document order |
| Ranking.SearchNoSharedToken | app/kb.py:105-115 | a question that shares no token with any block gets an empty result |
| Ranking.SearchEmptyQuestion | app/kb.py:105-115 | a question without tokens gets an empty result from any index |
| Lifecycle.DefaultAfterEnsure | app/kb.py:82-87 | a filled slot is kept; a missing file raises; otherwise the slot gets the built index, or the build error is raised and the slot stays empty |
| Lifecycle.KnowledgeBase.constructor | app/kb.py:118-121 | at import both slots start empty and one load of the default index is tried, with any error swallowed |
| Lifecycle.KnowledgeBase.EnsureDefaultLoaded | app/kb.py:82-87 | the default slot and the error are those of `DefaultAfterEnsure`; every index held stays well-formed |
| Lifecycle.KnowledgeBase.LoadCustom | app/kb.py:90-93 | on success the custom slot holds the new index and the entry count (at least 1) is returned; on failure the old custom slot stays |
| Lifecycle.KnowledgeBase.ResetCustom | app/kb.py:96-98 | the custom slot is cleared and the default slot is not touched |
| Lifecycle.KnowledgeBase.Chosen | app/kb.py:103 | the index a search uses: the custom one when it is asked for and loaded, otherwise the default one (so the default one when no custom one is loaded); never absent while the default is loaded |
| Lifecycle.KnowledgeBase.SearchSimilar | app/kb.py:101-115 | the default index is ensured first; on success the result is `Search` over the custom index when it is asked for and present, otherwise over the default index |
| Lifecycle.UploadThenFailedUpload | app/kb.py:90-103 | after a good upload and a failed one, a custom search still answers from the first upload |
| Lifecycle.UploadTwice | app/kb.py:90-93 | a failed upload after a good one leaves the good upload's index in the custom slot |
| Lifecycle.UploadThenReset | app/kb.py:96-103 | after a reset, a custom search gives the same result as a default search |
| Lifecycle.CustomSearchWithoutDefaultFile | app/kb.py:101-103 | without the default file, a custom search fails even though a custom index is loaded |
| Prompt.EntryText | app/llm.py:16 | the stripped `title\nbody` of an entry: empty, or without whitespace at either end |
| Prompt.ContextBlocks | app/llm.py:14-18 | at most one block per entry |
| Prompt.Context | app/llm.py:13-19 | the blocks joined by `"\n\n---\n\n"`: empty exactly when no entry has text |
| Prompt.ContextBlocksMembers | app/llm.py:14-18 | a text is a block exactly when it is the non-empty stripped `title\nbody` of some entry |
| Prompt.ContextBlocksAppend | app/llm.py:14-18 | the blocks of `a + b` are the blocks of `a` followed by the blocks of `b`: input order is kept |
| Prompt.ContextEmpty | app/llm.py:13-19 | the context is empty exactly when every entry's text strips to nothing, which includes an empty entry list |
| Prompt.ContextSnoc | app/llm.py:19 | one more entry with text is joined after exactly one `"\n\n---\n\n"` |
| Prompt.EntryTextEmptyBody | app/llm.py:16 | an entry with an empty body contributes its stripped title alone |
| Prompt.BuildContext | app/llm.py:13-19 | the loop and the join return `Context(entries)` |
| Prompt.UserText | app/llm.py:30-32 | the user text is never shorter than the question header and the question, and is longer exactly when the context is non-empty |
| Prompt.UserTextShape | app/llm.py:30-32 | the user text starts with the question header and the question, and the knowledge-base part follows exactly when the context is non-empty |
| Prompt.BuildUserText | app/llm.py:29-32 | builds the user text from the question and the context of the entries |
| Prompt.YandexMessages | app/llm.py:44-47 | the request carries two messages: the system prompt, then the user text |
| Prompt.GigaChatPrompt | app/llm.py:63-68 | the prompt is the system prompt, `"\n\n---\n\n"`, then the user text |
| Prompt.BothProviders | app/llm.py:44-68 | GigaChat's prompt is YandexGPT's system text, the separator and YandexGPT's user text |

## Left out

- Network calls, environment variables and the HTTP layer are not modelled: the requests to YandexGPT and GigaChat, their credentials, the HTTP status checks and the answer parsing in `app/llm.py`, and the routes in `app/main.py`. Only the text the service sends is modelled.
- File I/O is left out. The default knowledge-base file is a parameter: its text, or `None` when it does not exist. Reading the file as UTF-8 is not modelled.
- The message printed when the import-time load fails (`app/kb.py:120-121`) is left out. The constructor swallows the error, as the code does.
- Floating point is left out. Counts are exact naturals, and norms and scores are kept squared and exact, so `math.sqrt` is never needed. Two scores that are equal here could differ by rounding in the service, and rounding could then change how ties are ordered.
- Vectors.LowerChar: lower-cases only the Latin `A-Z` and Cyrillic `А-Я` capitals, while Python's `str.lower` covers all of Unicode. A few other capitals lower-case into the word class, for instance the Kelvin sign (U+212A) to `k`; the model treats them as separators. `İ` (U+0130) lower-cases in Python to two code points, `i` and a combining dot, so Python's `lower()` does not always keep the length, while the model's per-character lower-casing does. `Ё` lower-cases to `ё`, which lies outside `[а-я]` in both.
- Text.SplitLines: differs from `str.splitlines` only by empty pieces, in three cases. A `"\r\n"` pair leaves an empty piece between `"\r"` and `"\n"`. A final line break leaves an empty last piece (`"a\n"` gives `["a", ""]`, where Python gives `["a"]`). The empty text gives `[""]`, where Python gives `[]`. `_build_index` drops blank lines, so the lines it keeps are the same (`Lines`).
- Ranking.SortDesc: `scored.sort(...)` sorts the list in place. The model replaces the list with its sorted value; no alias of the list exists, so nothing observable changes.
- Concurrency between requests sharing the two slots is not modelled. The methods of `KnowledgeBase` run one at a time.
- The pydantic classes `KBEntry`, `ScoredItem` and `AskResponse` appear only as their data: `Entry`, `ScoredItem` and a result list. `AskResponse.answer` and `llm_provider` are filled by `app/main.py` and are not part of this model.
