# A verified model of a BM25 search engine over the French labour code

The system answers free-text queries over the articles of the *Code du
travail*. `SearchEngine` builds an inverted index (word → article id →
number of occurrences) from the article texts. A query is split into
keywords, and the keywords that many articles mention are dropped when rarer
ones are present. Each remaining keyword is scored with BM25 (k1 = 1.2,
b = 0.75). The per-keyword scores are added up per article, and the articles
are returned best first. Two front ends turn that ranking into at most six
articles and clean their text for display:

- `main.py`, a console loop;
- `online.py`, a FastAPI page.

`utilities.extract_titles` parses the bracketed list of section titles
stored with each article.

Modules, one per component:

| module | models |
|---|---|
| `Text` | `str.lower` (ASCII letters), `str.replace`, `str.strip`, `str.split` and `str.join` on one separator |
| `Tags` | `re.sub('<.*?>', '', s)`; a tag never spans a newline, because `.` does not match one |
| `Seqs` | order-preserving filtering, subsequences |
| `Assoc` | insertion-ordered dictionaries as association lists |
| `Normalizer` | `_get_words_from_row`, the keyword treatment of `_get_articles_from_word`, and the keyword extraction of `search` |
| `InvertedIndex` | the `defaultdict` index and the counting loop of `_index_content` |
| `QueryReducer` | `_reduce_query`, including the empty posting lists its reads insert |
| `Bm25` | `_inverse_document_frequency` and `_compute_bm25_score`, over exact reals |
| `Ranking` | `_update_scores`, the stable descending sort, and `search` |
| `Results` | the shared reference for both `solve_query` functions: the first six ranked ids that match a row |
| `Cli` | `main.py`: `solve_query` as a loop, the text cleaning of `display_results`, and the `--retrain` guard |
| `Web` | `online.py`: `solve_query` as a recursion, and the cleaning and line splitting of `search_results` |
| `Utilities` | `extract_titles` and its round trip with the stored list format |

Behaviour kept as the code has it:

- **The lower-cased query is discarded.** `search` computes `query.lower()`
  (searchengine.py:33) and then overwrites it with `query.strip(...)` of the
  original query (searchengine.py:34). So `_reduce_query` reads document
  frequencies under the keywords exactly as typed, while scoring reads them
  under their lower-cased, stripped lookup form (`LookupForm`).
  `QueryTerms` composes the two in that order.
- **Up to six results, not five.** `solve_query` stops only once *more* than
  five lookups are collected, so it returns up to `Limit + 1` = 6 lookups
  (`Results.TopShape`).
- **The retrain guard is anchored only at the start.** `re.match("^\..*\.pkl", index)`
  accepts any path that starts with a dot and holds `.pkl` later on its
  first line, e.g. `./index.pkl.bak` (`Cli.RetrainGuardAccepts`).
- **The IDF is positive within the corpus.** With the true logarithm, the
  IDF of a word posted for at most `N` articles is strictly positive
  (`Bm25.IdfPositive`). Only a document frequency above `N` gives
  `ln(x) <= 0`, with `x = (N+1)/(df+0.5)`, and a built index cannot produce
  one (`InvertedIndex.DocFreqBounds`).

## Model

| member | source | states |
|---|---|---|
| `Text.Lower` | searchengine.py:144 | lower-casing keeps the length, turns each upper-case letter into its lower-case letter 32 code points on, leaves no upper-case letter and changes no other character |
| `Text.LowerIdempotent` | searchengine.py:131 | lower-casing twice is lower-casing once |
| `Text.Replace` | searchengine.py:145-148 | `str.replace` with a replacement no longer than the pattern never lengthens the text, and is the identity when the pattern's first character is absent |
| `Text.ReplaceSkip` | searchengine.py:145-148 | a prefix that cannot start the pattern passes through `str.replace` unchanged |
| `Text.ReplaceAbsent` | searchengine.py:145-148 | text in which the pattern occurs at no index is left unchanged |
| `Text.ReplaceSelf` | searchengine.py:145-148 | replacing a pattern by itself changes nothing |
| `Text.ReplaceFront` | searchengine.py:145-148 | an occurrence at the front is replaced and the scan resumes right after it |
| `Text.Strip` | searchengine.py:154 | the strip neither starts nor ends with a character of the stripped set |
| `Text.StripSlice` | searchengine.py:154 | the strip is a slice of the input with only stripped characters around it |
| `Text.StripWrapped` | utilities.py:9-12 | a string whose own ends are outside the set is recovered from any padding made of the set |
| `Text.Split` | searchengine.py:151 | `split` gives a non-empty list of pieces, none holding the separator, the first a prefix of the input |
| `Text.SplitCount` | online.py:64 | `split` gives one piece more than there are separators |
| `Text.JoinSplit` | searchengine.py:151 | joining the pieces of a split with the separator gives back the input |
| `Text.SplitJoin` | searchengine.py:151 | splitting a join of separator-free pieces gives back the pieces |
| `Tags.DeleteTags` | searchengine.py:149 | deleting tags never lengthens the text and leaves text without `<` alone |
| `Tags.DeleteTagsLeavesNoTag` | searchengine.py:149 | after deletion no `<` is followed by a `>` on the same line |
| `Tags.DeleteTagsNoop` | searchengine.py:149 | text holding no tag on any line is left unchanged |
| `Tags.DeleteTagsIdempotent` | searchengine.py:149 | deleting tags twice is deleting them once |
| `Tags.DeleteTagsPlainPrefix` | searchengine.py:149 | a prefix without `<` survives unchanged in front of the rest's deletion |
| `Tags.DeleteTagsTag` | searchengine.py:149 | a `<...>` whose inside holds neither `>` nor a newline is removed, with the shortest match |
| `Tags.DeleteTagsUnclosed` | searchengine.py:149 | a `<` with no `>` before the end of its line survives |
| `Tags.DeleteTagsExample` | searchengine.py:149 | `x<y>z` becomes `xz` |
| `Seqs.Filter` | searchengine.py:155-159 | filtering keeps exactly the elements that pass, in order, as a subsequence |
| `Seqs.FilterCount` | searchengine.py:155-159 | a passing element occurs in the filtered list as often as in the input, a failing one not at all |
| `Assoc.Upsert` | searchengine.py:117-120 | adding to a dictionary adds exactly the key, keeps every other entry in place and appends a new key at the end |
| `Assoc.UpsertGet` | searchengine.py:117-120 | the updated key holds the sum of old and new value, or the new value if it was absent |
| `Assoc.UpsertOther` | searchengine.py:117-120 | every other key keeps its value |
| `Normalizer.Clean` | searchengine.py:155-159 | the kept words are exactly the words that are neither stop words nor empty |
| `Normalizer.CleanCount` | searchengine.py:155-159 | a kept word occurs as often as in the input, so repeated words keep their multiplicity |
| `Normalizer.Tokens` | searchengine.py:135-159 | every indexed word is non-empty, not a stop word, holds no space and has no punctuation at either end |
| `Normalizer.TokensCount` | searchengine.py:135-159 | each token occurs as often as the stripped pieces of the prepared text hold it; stop words and the empty word not at all |
| `Normalizer.TokensExactly` | searchengine.py:144-159 | a word is a token exactly when it is the strip of a space-separated piece of the prepared text and is neither a stop word nor empty |
| `Normalizer.CitationCollapse` | searchengine.py:144-147 | a text starting `L. x`, where `x` does not itself start with `. `, tokenizes like `Lx` |
| `Normalizer.CitationExample` | searchengine.py:144-147 | `L. 1234` and `L1234` both give the single token `l1234` |
| `Normalizer.LookupForm` | searchengine.py:131-133 | a keyword's lookup form is lower case and has no punctuation at either end |
| `Normalizer.QueryKeywords` | searchengine.py:34-35 | the keywords are a non-empty list of space-free pieces whose join with spaces is the stripped query |
| `Normalizer.TokensAreLookupForms` | searchengine.py:131-159 | every indexed word is its own lookup form, so a keyword typed as indexed finds its postings |
| `InvertedIndex.Access` | searchengine.py:56 | reading `index[w]` adds `w` with an empty posting list if it was absent, and changes no posting list |
| `InvertedIndex.AddWord` | searchengine.py:101 | `index[w][a] += 1` raises exactly that count by one, adds `a` to `w`'s postings, and keeps every count positive |
| `InvertedIndex.AddWordsPostings` | searchengine.py:100-101 | counting a word list posts its article under exactly the words of the list |
| `InvertedIndex.AddWordsCount` | searchengine.py:100-101 | counting a word list raises each count by the word's number of occurrences in the list |
| `InvertedIndex.Docs` | searchengine.py:98-99 | the documents carry the corpus's ids in corpus order, and every word they hold is a token |
| `InvertedIndex.BuildDocs` | searchengine.py:96-101 | the built index holds exactly the words of the corpus, each posted for exactly the articles containing it, with positive counts |
| `InvertedIndex.BuildDocsCount` | searchengine.py:96-101 | each count in a built index is the word's number of occurrences in that article's rows |
| `InvertedIndex.DocFreqBounds` | searchengine.py:184-185 | the document frequency never exceeds the number of distinct ids, which never exceeds `N`, and is positive exactly for indexed words |
| `InvertedIndex.BuildCount` | searchengine.py:96-101 | after a build, an article is posted under a word exactly when one of its rows holds that word as a token |
| `QueryReducer.Reduced` | searchengine.py:44-65 | the reduced query is a subsequence of the keywords, and non-empty when they are |
| `QueryReducer.UnusualInIntegers` | searchengine.py:57 | `df < N / 4` in true division holds exactly when `4 * df < N` |
| `QueryReducer.ReducedMembers` | searchengine.py:59-65 | when some keyword is unusual, a keyword survives exactly when it is unusual; otherwise the query is unchanged |
| `QueryReducer.ReducedIdempotent` | searchengine.py:44-65 | reducing a reduced query changes nothing |
| `QueryReducer.ReducedSamePostings` | searchengine.py:56 | the reduction depends only on the posting lists, so the empty lists its reads insert cannot change it |
| `QueryReducer.AccessAllSamePostings` | searchengine.py:56 | reading every keyword leaves every posting list as it was |
| `QueryReducer.AccessAll` | searchengine.py:55-56 | reading every keyword adds exactly the unseen ones, each with an empty posting list |
| `QueryReducer.ReadFrequencies` | searchengine.py:53-58 | the first loop records each keyword's document frequency and counts unusual ones exactly when there is one |
| `QueryReducer.KeepUnusual` | searchengine.py:59-64 | the second loop keeps the unusual keywords in query order |
| `QueryReducer.ReduceQuery` | searchengine.py:44-65 | `_reduce_query` returns the reference reduction and only adds empty posting lists to the index |
| `QueryReducer.ReduceExample` | searchengine.py:57-64 | with more than eight articles, a keyword in two of them is kept and one in all of them is dropped |
| `Bm25.IdfRatio` | searchengine.py:186-187 | `(N - df + 0.5) / (df + 0.5)` is positive for `df <= N` |
| `Bm25.LogArgClosedForm` | searchengine.py:186-188 | the logarithm's argument is `(N + 1) / (df + 0.5)` |
| `Bm25.LogArgPositive` | searchengine.py:188 | the logarithm is always taken of a positive number |
| `Bm25.LogArgAboveOne` | searchengine.py:188 | the argument exceeds one exactly when `df <= N` |
| `Bm25.IdfDecreasing` | searchengine.py:184-188 | rarer words have a strictly larger IDF |
| `Bm25.IdfPositive` | searchengine.py:184-188 | with `ln(1) = 0`, a word posted for at most `N` articles has a positive IDF |
| `Bm25.LengthNorm` | searchengine.py:81 | the length normalisation is at least `1 - b` |
| `Bm25.Tf` | searchengine.py:80-81 | the saturated frequency is non-negative, and strictly between 0 and `k1 + 1` for a present word |
| `Bm25.TfIncreasing` | searchengine.py:80-81 | more occurrences give a strictly larger term frequency |
| `Bm25.TfLengthDecreasing` | searchengine.py:80-81 | the same count in a longer article gives a strictly smaller term frequency |
| `Bm25.ScoreTerm` | searchengine.py:75-84 | a term's score map has the articles of its posting list, in posting order, each once |
| `Bm25.ScoreTermPositive` | searchengine.py:82-83 | on a built index every score of a term posted for at most `N` articles is positive |
| `Bm25.WeightIncreasing` | searchengine.py:80-82 | of two articles of equal length, the one with more occurrences of a word posted for at most `N` articles gets the larger `idf * tf` |
| `Bm25.ScoreTermPrefersFrequent` | searchengine.py:78-83 | of two articles of equal length, the one holding the term more often scores higher |
| `Ranking.UpdateScores` | searchengine.py:107-121 | merging keeps the existing keys in place, has the union of keys, and stays a dictionary |
| `Ranking.UpdateScoresGet` | searchengine.py:116-120 | an article's merged score is the sum of its two scores, an absent one counting as zero |
| `Ranking.UpdateScoresOrder` | searchengine.py:116-120 | the merged keys are the old keys followed by the new map's unseen keys, in the new map's order |
| `Ranking.UpdateScoresMerge` | searchengine.py:116-120 | shared articles get the sum, the others keep the score of the one map that holds them |
| `Ranking.InsertSorted` | searchengine.py:41 | inserting into a list sorted by descending score keeps it sorted |
| `Ranking.SortDesc` | searchengine.py:41 | the sort is a permutation that is sorted by descending score and keeps the keys |
| `Ranking.SortStable` | searchengine.py:41 | entries of equal score keep their relative order |
| `Ranking.Accumulate` | searchengine.py:37-40 | the accumulated map is a dictionary holding exactly the articles posted under some term |
| `Ranking.AccumulateGet` | searchengine.py:37-40 | each article's accumulated score is the sum of its per-term weights |
| `Ranking.Rank` | searchengine.py:37-41 | the ranking is a descending, duplicate-free permutation of the accumulated scores |
| `Ranking.RankScore` | searchengine.py:37-41 | each ranked entry carries its article's total score |
| `Ranking.Search` | searchengine.py:24-42 | `search` ranks the reduced keywords' lookup forms and changes no posting list |
| `Ranking.SearchRanking` | searchengine.py:24-42 | the result lists every article posted under a surviving term once, in non-increasing order of its total score |
| `Ranking.SearchTies` | searchengine.py:41 | articles with equal scores appear in the order in which they were first scored |
| `Results.Lookup` | main.py:22 | a lookup returns exactly the rows with the given id, as a subsequence of the corpus in corpus order |
| `Results.LookupCount` | main.py:22 | a row with the given id occurs in the lookup as often as in the corpus, any other not at all |
| `Results.ResolvedIsFiltered` | main.py:21-24 | the list the loop builds, one lookup per ranked id that matches a row, is the ranking filtered to the ids that match some row and then looked up |
| `Results.TopOfPrefix` | main.py:25-26 | once more than five lookups of a prefix are kept, the rest of the ranking does not matter |
| `Results.TopShape` | main.py:19-27 | at most six non-empty lookups, of ranked ids in ranking order, and all of them when five or fewer ids match |
| `Cli.CollectTop` | main.py:19-27 | the loop returns the first six matching lookups |
| `Cli.SolveQuery` | main.py:9-27 | `solve_query` returns at most six lookups of the search ranking and leaves the posting lists unchanged |
| `Cli.CleanText` | main.py:49-50 | the displayed text is never longer than the stored one |
| `Cli.CleanTextHasNoTag` | main.py:49-50 | no `<` is followed on the same line by a `>` in the displayed text |
| `Cli.RetrainGuardExactly` | main.py:76 | the guard accepts exactly the paths that start with a dot and hold `.pkl` at position one or later on the first line |
| `Cli.RetrainGuardAccepts` | main.py:70-76 | `./index_cdt.pkl` and `./index.pkl.bak` are both accepted |
| `Cli.RetrainGuardRejects` | main.py:76 | `index_cdt.pkl` and `.pkl` are rejected |
| `Cli.RemovesIndex` | main.py:75-77 | `--retrain` deletes the file exactly when it exists and its path passes the guard |
| `Web.Collect` | online.py:30-38 | the recursion only extends what it has collected and returns at most six lookups |
| `Web.CollectIsTop` | online.py:30-38 | `solve_query` of the web page returns the same first six matching lookups as the reference |
| `Web.SolveQuery` | online.py:22-38 | `solve_query` returns the first six matching lookups of the search ranking, the same as the console's, none empty |
| `Web.Display` | online.py:60-64 | each result becomes the lines of its first row's cleaned text: joined with newlines they give that text back, and no line holds a newline or a tag |
| `Web.SearchResults` | online.py:57-66 | the page receives one list of lines per article of the first six matching ids of the ranking, each joining back to that article's cleaned text, none holding a tag |
| `Web.CleanText` | online.py:62-63 | the cleaned text is never longer than the stored one |
| `Web.Lines` | online.py:64 | the lines are a non-empty list, none holding a newline |
| `Web.LinesCount` | online.py:64 | there is one line more than the cleaned text has newlines |
| `Web.LinesJoin` | online.py:64 | joining the lines with newlines gives back the cleaned text |
| `Web.LinesHaveNoTag` | online.py:62-64 | no line holds a `<` followed later by a `>` |
| `Web.ParagraphLines` | online.py:62-64 | a text of `<p>x</p>` paragraphs of plain text is displayed as those paragraphs, one per line, followed by one empty line |
| `Utilities.ExtractTitles` | utilities.py:9-13 | the titles are a non-empty list, none holding a comma, none starting or ending with a space or a quote |
| `Utilities.ExtractTitlesCount` | utilities.py:9-10 | there is one title more than there are commas after the brackets are stripped |
| `Utilities.ExtractTitlesEmptyList` | utilities.py:9-10 | `[]` gives one empty title |
| `Utilities.ExtractTitlesNestedBrackets` | utilities.py:9 | every bracket at either end is stripped, not just one pair |
| `Utilities.ExtractFormatSplitsCommas` | utilities.py:10 | the split ignores quotes: a list with a comma inside a title does not come back whole |
| `Utilities.ExtractCommaTitle` | utilities.py:9-13 | a single stored title `a,b` comes back as the two titles `a` and `b`, for comma-free, quote-free, unpadded `a` and `b` |
| `Utilities.ExtractFormat` | utilities.py:9-12 | formatting a non-empty list of titles as `["t1", "t2", ...]` and extracting gives the list back, for titles without commas or quotes and not padded with spaces |

## Left out

- Pickle loading and saving of the index, and the cache-file existence test in `_index_content`: file I/O. `Build` is the index a fresh build produces. Every other operation takes any index.
- The French stop-word list of `nltk` is a parameter `stop`.
- The article length: `_compute_bm25_score` reads it from the first row whose id *contains* the article id. That pandas `str.contains` lookup, a regular-expression search by default, is a parameter `length`. The average length and the row count are parameters `avgdl` and `n` of `Params`.
- Bm25.Tf: requires `avgdl > 0`, because the model's term frequency divides by it. The source divides by the average length only inside the loop over a posting list (searchengine.py:78-81); the average is zero only when every text is empty, no word is then indexed, and search returns `{}` without dividing. The model does not cover that corpus.
- Ranking.Search: requires `avgdl > 0`, because the model's term frequency divides by it. The source divides by the average length only inside the loop over a posting list (searchengine.py:78-81); the average is zero only when every text is empty, no word is then indexed, and search returns `{}` without dividing. The model does not cover that corpus.
- Cli.SolveQuery: requires `avgdl > 0`, because the model's term frequency divides by it. The source divides by the average length only inside the loop over a posting list (searchengine.py:78-81); the average is zero only when every text is empty, no word is then indexed, and search returns `{}` without dividing. The model does not cover that corpus.
- Web.SolveQuery: requires `avgdl > 0`, because the model's term frequency divides by it. The source divides by the average length only inside the loop over a posting list (searchengine.py:78-81); the average is zero only when every text is empty, no word is then indexed, and search returns `{}` without dividing. The model does not cover that corpus.
- An empty corpus (`N = 0`): `_average_article_length` divides by the number of articles (searchengine.py:166) on every call of `_compute_bm25_score`, so every search raises `ZeroDivisionError`, while the model returns a ranking for `n = 0`.
- `math.log` is the parameter `ln`. The lemmas that need it assume only that it is strictly increasing, and for the sign of the IDF that `ln(1) = 0`. Floating-point rounding is not modelled; scores are exact reals.
- `str.lower` is modelled on ASCII letters only. Accented capitals are left unchanged, where Python would lower them.
- `Text.Replace` requires a non-empty pattern. Every call in the source uses a literal non-empty pattern.
- `Text.Split` is modelled for a one-character separator only, which is the only kind the source uses.
- The reads of `self.index[...]` during a search modify the `defaultdict` in the source; the model computes the index they leave behind in one pass (`QueryReducer.AccessAll`) rather than interleaved with scoring. The result is the same, since no posting list changes.
- `print`, the console loop `query_loop`, `click` option parsing, `locale`, and the deletion by `os.remove`. `Cli.RemovesIndex` takes the file's existence as an input and only decides whether to delete.
- The FastAPI routes, Jinja templates, static files, `uvicorn` and the module-level engine construction in `online.py`. `Web.SearchResults` gives the lines the results template receives; the `convert_date` rewrite of `date_deb` (online.py:61) is not modelled.
- `read_csv` and `convert_date`: CSV loading and date parsing are outside the ranking core. Dates are carried as opaque strings.
- The display of article number, id, date and titles in `display_results`, apart from the text cleaning and `extract_titles`: printing only.
