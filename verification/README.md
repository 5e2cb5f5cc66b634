# Occupation matcher and course-title repair, modelled in Dafny

The repository recommends occupational profiles ("okupasi") for a piece of
free text. Its matching endpoint (`match_profile` in `api/index.py`) takes
the occupation catalog and one embedding vector per catalog row. It embeds
the user's text and scores every row with cosine similarity. It then sorts
the scores, highest first, with Python's stable `list.sort`, keeps the first
`top_k` entries and shapes each one into a result object `{id, nama, score,
gap}`. A maintenance script (`scripts/fix_course_titles.py`) derives a
readable course title from a course URL. It then overwrites, in place, the
title of every course still titled `Unknown Course`.

The model has five modules:

- `Cosine` (`cosine.dfy`): the dot product, the sum of squares and the
  similarity with its zero-norm guard, over `real`. The square root is a
  parameter `root`. The lemmas that need it to be the true square root say
  so with `IsSquareRoot(root)`.
- `Ranking` (`ranking.dfy`): the sort of the `(index, score)` list. It is
  generic over where the scores come from. The reference ranking
  `RankScores` is defined by a functional insertion sort over the order
  `Before`: the higher score first, and the lower index first on equal
  scores. The method `SortByScore` is the imperative sort: an insertion
  sort by exchanging neighbours that compares scores only, as the source's
  key does. `RankedUnique` shows that any two rankings of the same entries
  are equal, which ties the method to the function.
- `Matcher` (`matcher.dfy`): the endpoint without its I/O. `MatchSpec` is
  the response as a function, and `Match` computes it step by step: the
  emptiness check, the trim, the embedding outcome, the scoring loop, the
  sort, the slice and the shaping loop. The lemmas state the error cases,
  the length, the order, the tie order, optimality, completeness, the
  trim and the zero-query case.
- `Text` (`text.dfy`): the Python string operations the script uses, on
  ASCII text: `rstrip`, `split(...)[-1]`, `replace`, `title`, `lower` and
  `in`.
- `CourseTitles` (`titles.dfy`): `url_to_title` as a function (`UrlTitle`)
  and as a method (`UrlToTitle`) whose rewrite loop is proved equal to it.
  It also holds the per-course update and the in-place loop over an array
  of course records (`FixTitles`).

Three behaviours of the code are worth stating on their own:

- `scores[:top_k]` follows Python slice semantics for any integer, so a
  negative `top_k` drops that many entries from the end. `SliceStop`
  reproduces this.
- An empty vector list gives the same "Database not found" error as an
  empty catalog.
- The rewrite table lists `'Flask Python React Js'` after `'React Js'`.
  Rewrites apply in order, so the earlier one always removes the text the
  later key needs, and the later rewrite never fires. `FlaskRewriteNeverFires`
  proves this for every input. The model keeps the rewrites in the
  script's order.

## Model

| member | source | states |
|---|---|---|
| Cosine.Dot | api/index.py:49 | the sum of the products of paired components, pairs formed as `zip` forms them; `DotSymmetric`, `DotTruncates` and `DotSelf` state its properties |
| Cosine.Similarity | api/index.py:47-56 | `cosine_similarity`: the dot product over the product of the norms, 0 when either norm is 0; `ZeroVectorScoresZero`, `SimilaritySymmetric`, `SelfSimilarityIsOne` and `NormReadsWholeVector` state its properties |
| Cosine.SumSquares | api/index.py:50-51 | the sum of squares of a vector is never negative |
| Cosine.DotSymmetric | api/index.py:49 | the dot product does not depend on the order of its arguments |
| Cosine.DotTruncates | api/index.py:49 | the dot product reads only the first min(len a, len b) components, as `zip` does |
| Cosine.DotSelf | api/index.py:49-51 | a vector's dot product with itself is its sum of squares |
| Cosine.SumSquaresZero | api/index.py:50-53 | the sum of squares is 0 exactly when every component is 0, the empty vector included |
| Cosine.ZeroVectorScoresZero | api/index.py:50-54 | when either vector is all zeros or empty, the similarity is exactly 0, on either side |
| Cosine.SimilaritySymmetric | api/index.py:47-56 | swapping the two vectors gives the same similarity |
| Cosine.SelfSimilarityIsOne | api/index.py:47-56 | with the true square root, a vector that is not all zeros has similarity 1 with itself |
| Cosine.NormReadsWholeVector | api/index.py:49-51 | the norms read whole vectors although the dot product stops at the shorter one: [1] against [1, 1] scores differently from [1] against [1] |
| Ranking.Insert | api/index.py:90 | inserting an entry into a list keeps every entry and adds that one |
| Ranking.SortRanked | api/index.py:90 | the reference sort returns a permutation of its input |
| Ranking.InsertRanked | api/index.py:90 | inserting an entry with a new index into a ranked list gives a ranked list |
| Ranking.SortRankedIsRanked | api/index.py:90 | the reference sort of entries with distinct indices is ranked: scores non-increasing, equal scores by ascending index |
| Ranking.InsertAfter | api/index.py:90 | an entry ranked before the inserted entry and before all others is ranked before every entry of the result |
| Ranking.RankedTail | api/index.py:90 | dropping the first entry of a ranking leaves a ranking |
| Ranking.RankedHeads | api/index.py:90 | two rankings of the same entries start with the same entry |
| Ranking.RankedUnique | api/index.py:90 | two rankings of the same entries are the same sequence, so the stable sort has exactly one possible result |
| Ranking.EnumerateAscending | api/index.py:84-87 | the score list built in index order has ascending, distinct indices |
| Ranking.RankScores | api/index.py:84-90 | the ranking has one entry per score, is ranked, and is a permutation of the (index, score) list |
| Ranking.RankingCovers | api/index.py:84-90 | each ranked entry carries an in-range index and that index's score, indices are distinct, and every (index, score) pair appears |
| Ranking.EqualScoresKeepOrder | api/index.py:90 | when all scores are equal the sort keeps catalog order: the ranking is the unsorted (index, score) list itself |
| Ranking.RankingTop | api/index.py:90-91 | an index left out of the first k ranked entries scores no more than any of those k |
| Ranking.SinkStep | api/index.py:90 | exchanging the moving entry with a lower-scored predecessor keeps the state of one sort pass |
| Ranking.Sink | api/index.py:90 | one sort pass leaves the first i + 1 entries ranked, keeps the entries after i, and permutes the list |
| Ranking.SortByScore | api/index.py:90 | the sort by score, highest first, returns a ranked permutation of its input: non-increasing scores, ties in ascending index order |
| Matcher.SliceStop | api/index.py:91 | a slice `xs[:k]` never holds more than the list |
| Matcher.Similarities | api/index.py:84-87 | one score per catalog vector |
| Matcher.Top | api/index.py:90-91 | the kept entries number as many as the slice keeps; each carries an in-range index and that index's score |
| Matcher.Hits | api/index.py:93-101 | one result object per kept entry |
| Matcher.Get | api/index.py:97-98 | `row.get(key, 'N/A')`: the value under the key, or "N/A" when the row lacks it; `MatchHits` states the defaults on the response |
| Matcher.Shape | api/index.py:96-101 | the result object for one kept entry: id and name from the row with "N/A" defaults, the score, and the fixed gap text; `MatchHits` and `ZeroQueryKeepsCatalogOrder` state it on the response |
| Matcher.MatchSpec | api/index.py:60-103 | the endpoint's response as a function of the catalog, the vectors, the embedding outcome and top_k; `MatchErrors`, `MatchLength`, `MatchHits`, `MatchOrder`, `MatchBest`, `MatchComplete`, `MatchTrims` and `ZeroQueryKeepsCatalogOrder` state its properties, and `Match` computes it step by step |
| Matcher.ScoreAll | api/index.py:84-87 | the scoring loop gives exactly one entry per vector, in index order: entry i is (i, similarity of the query and vector i) |
| Matcher.Align | api/index.py:65-70 | after the trim both lists have the length of the shorter one and are prefixes of the originals |
| Matcher.RankTop | api/index.py:84-91 | scoring, sorting and slicing give exactly the first entries of the reference ranking |
| Matcher.ShapeAll | api/index.py:93-101 | the shaping loop builds one result object per kept entry, in order |
| Matcher.Match | api/index.py:60-103 | the endpoint's response equals the specification `MatchSpec` on every input |
| Matcher.MatchErrors | api/index.py:62-81 | "Database not found" exactly when the catalog or the vector list is empty; "Embedding error: " plus the reason when the embedding fails on a non-empty database; an error exactly in those cases |
| Matcher.MatchLength | api/index.py:91 | a successful response holds min(top_k, n) results for top_k >= 0, and max(0, n + top_k) for a negative top_k, n being the trimmed length |
| Matcher.MatchHits | api/index.py:94-101 | each result is the row of a distinct in-range catalog index, scored against that index's vector, with "N/A" for a missing OkupasiID or Okupasi and the fixed gap text |
| Matcher.MatchOrder | api/index.py:90-91 | results come with non-increasing scores; results with equal scores keep ascending catalog order |
| Matcher.MatchBest | api/index.py:90-91 | every recommended occupation scores at least as high as any catalog occupation left out |
| Matcher.MatchComplete | api/index.py:90-91 | a top_k at least the trimmed catalog size recommends every catalog index with its score |
| Matcher.MatchTrims | api/index.py:65-70 | rows or vectors beyond the shorter list never change the response |
| Matcher.ZeroQueryKeepsCatalogOrder | api/index.py:84-101 | a query vector of zeros, or an empty one, scores everything 0, and the results are the first catalog rows in order with score 0 |
| Text.ToUpper | scripts/fix_course_titles.py:14 | a lower-case letter becomes the upper-case letter at the same alphabet position; an upper-case letter and any other character are kept |
| Text.ToLower | scripts/fix_course_titles.py:39 | an upper-case letter becomes the lower-case letter at the same alphabet position; a lower-case letter and any other character are kept |
| Text.Lower | scripts/fix_course_titles.py:39-40 | `s.lower()`: each character lowered on its own; `LowerIdempotent`, `LowerIgnoresCase` and `LowerOfTitleCase` state its properties |
| Text.LowerIdempotent | scripts/fix_course_titles.py:39-40 | lowering a lowered text changes nothing |
| Text.LowerIgnoresCase | scripts/fix_course_titles.py:39-40 | two texts that agree up to case lower to the same text |
| Text.Contains | scripts/fix_course_titles.py:39-40 | `p in s`: some position of s starts with p; `ContainsFrom`, `ContainsSuffix` and `ContainsSkip` state its properties |
| Text.ContainsFrom | scripts/fix_course_titles.py:39-40 | text found in a suffix of a string is found in the string |
| Text.ContainsSuffix | scripts/fix_course_titles.py:39-40 | a string that contains w contains every suffix of w |
| Text.ContainsSkip | scripts/fix_course_titles.py:35-36 | characters that cannot start a match may be skipped when searching |
| Text.Replace | scripts/fix_course_titles.py:11-36 | `str.replace`: every non-overlapping occurrence, scanned left to right, replaced, and an empty pattern inserts the replacement before each character and at the end; `ReplaceAbsent`, `ReplaceRemovesChar` and `ReplaceKeepsAbsent` state its properties |
| Text.ReplaceAbsent | scripts/fix_course_titles.py:35-36 | `replace` with a pattern that does not occur changes nothing |
| Text.ReplaceRemovesChar | scripts/fix_course_titles.py:11 | replacing a character by text without it removes every copy of it |
| Text.ReplaceKeepsAbsent | scripts/fix_course_titles.py:11-36 | `replace` never introduces a character that neither the text nor the replacement holds |
| Text.StripRight | scripts/fix_course_titles.py:7 | `rstrip` returns a prefix that does not end in the character, and everything cut off is that character |
| Text.LastSegment | scripts/fix_course_titles.py:7-8 | `split(sep)[-1]` is a suffix without `sep`, preceded by `sep` whenever it is shorter than the string |
| Text.TitleFrom | scripts/fix_course_titles.py:14 | `title()` keeps the length |
| Text.TitleFromShape | scripts/fix_course_titles.py:14 | `title()` from any starting state keeps non-letters and letters up to case, and sets each letter's case by whether a letter precedes it |
| Text.TitleCase | scripts/fix_course_titles.py:14 | `s.title()` on ASCII, `TitleFrom` started with no letter before; `TitleCaseShape`, `TitleCaseKeepsAbsent` and `LowerOfTitleCase` state its properties |
| Text.TitleCaseShape | scripts/fix_course_titles.py:14 | after `title()` each letter at the start or after a non-letter is upper case and each letter after a letter is lower case; non-letters and letters up to case are kept |
| Text.TitleCaseKeepsAbsent | scripts/fix_course_titles.py:14 | `title()` never introduces a character that is not a letter |
| Text.LowerOfTitleCase | scripts/fix_course_titles.py:14-40 | `title()` changes case only: lowering the title-cased text gives the lowered input |
| CourseTitles.Slug | scripts/fix_course_titles.py:7-8 | the slug has no '/', is the text after the last '/' once trailing slashes are stripped, and is the URL itself when the URL has no '/' |
| CourseTitles.Spaced | scripts/fix_course_titles.py:11 | each '-', then each "%20", replaced by a space; `SpacedHasNoHyphen` states its property |
| CourseTitles.ApplyAll | scripts/fix_course_titles.py:35-36 | the rewrites applied in table order, each to the previous result; `ApplyAllSplit`, `ApplyAllKeepsAbsent`, `ShadowedRewrite` and `FlaskRewriteNeverFires` state its properties, and `Rewrite` computes it by the loop |
| CourseTitles.Suffixed | scripts/fix_course_titles.py:38-43 | the suffix rule; `SuffixRule`, `SuffixLabels`, `SuffixIdempotent` and `SuffixedKeepsAbsent` state its properties |
| CourseTitles.BaseTitle | scripts/fix_course_titles.py:7-36 | the title before the suffix rule: slug, space substitutions, `title()` and the rewrites; `BaseHasNoHyphen` states its property |
| CourseTitles.UrlTitle | scripts/fix_course_titles.py:4-45 | `url_to_title` as a function; `NoHyphen` and `SuffixLabels` state its properties, and `UrlToTitle` computes it step by step |
| CourseTitles.Rewrite | scripts/fix_course_titles.py:35-36 | the rewrite loop applies every rewrite of the table in order, each to the previous result |
| CourseTitles.AddSuffix | scripts/fix_course_titles.py:38-43 | the suffix step gives the suffix rule's result, and the result mentions bootcamp, course, belajar or introduction |
| CourseTitles.UrlToTitle | scripts/fix_course_titles.py:4-45 | the step-by-step title derivation equals `UrlTitle` and has no hyphen |
| CourseTitles.ApplyAllSplit | scripts/fix_course_titles.py:35-36 | applying a list of rewrites in order is applying its first part, then the rest |
| CourseTitles.ApplyAllKeepsAbsent | scripts/fix_course_titles.py:35-36 | rewrites whose replacements lack a character never introduce it |
| CourseTitles.RewritesAddNoHyphen | scripts/fix_course_titles.py:17-33 | no replacement text in the table holds a hyphen |
| CourseTitles.SpacedHasNoHyphen | scripts/fix_course_titles.py:11 | after the two space substitutions the slug has no hyphen |
| CourseTitles.SuffixedKeepsAbsent | scripts/fix_course_titles.py:39-43 | the suffix rule introduces no character absent from the title and from " Bootcamp" |
| CourseTitles.BaseHasNoHyphen | scripts/fix_course_titles.py:11-36 | before the suffix rule the title has no hyphen |
| CourseTitles.SuffixedHasNoHyphen | scripts/fix_course_titles.py:39-43 | the suffix rule adds no hyphen |
| CourseTitles.NoHyphen | scripts/fix_course_titles.py:11-43 | no title derived from a URL contains a hyphen |
| CourseTitles.ReactPrefixKept | scripts/fix_course_titles.py:26 | a text without 'R' that starts the result of the React rewrite also starts its input |
| CourseTitles.ReactNotAtStart | scripts/fix_course_titles.py:26 | the result of the React rewrite does not start with "React Js" |
| CourseTitles.ReactRewriteLeavesNone | scripts/fix_course_titles.py:26 | after the React rewrite no "React Js" remains anywhere |
| CourseTitles.ShadowedRewrite | scripts/fix_course_titles.py:35-36 | a rewrite right after the React rewrite whose key ends in "React Js" can be dropped from any rewrite list without changing the result |
| CourseTitles.FlaskRewriteNeverFires | scripts/fix_course_titles.py:26-36 | the script's rewrites give the same result with or without the "Flask Python React Js" entry, on every input |
| CourseTitles.BootcampMarked | scripts/fix_course_titles.py:43 | a title with " Bootcamp" appended says "bootcamp" once lower-cased |
| CourseTitles.SuffixLabels | scripts/fix_course_titles.py:39-43 | every derived title mentions bootcamp, course, belajar or introduction, ignoring case |
| CourseTitles.SuffixIdempotent | scripts/fix_course_titles.py:39-43 | applying the suffix rule twice is applying it once |
| CourseTitles.SuffixRule | scripts/fix_course_titles.py:39-43 | nothing is appended when the lower-cased title says bootcamp or course, or says belajar or introduction; otherwise " Bootcamp" is appended |
| CourseTitles.Patched | scripts/fix_course_titles.py:53-54 | one course after the update; `PatchedChangesOnlyTitle`, `PatchedWith`, `PatchKeepsDerived` and `PatchIdempotent` state its properties |
| CourseTitles.PatchedChangesOnlyTitle | scripts/fix_course_titles.py:52-54 | the update changes only the title of a course titled "Unknown Course", to the title derived from its URL; keys and every other field are kept, and other courses are unchanged |
| CourseTitles.PatchedWith | scripts/fix_course_titles.py:53-54 | a placeholder title is replaced by the derived title, and nothing else changes |
| CourseTitles.PatchKeepsDerived | scripts/fix_course_titles.py:53-54 | a course whose title is already the title derived from its URL is left unchanged |
| CourseTitles.PatchIdempotent | scripts/fix_course_titles.py:53-54 | updating one course a second time changes nothing |
| CourseTitles.PatchCourse | scripts/fix_course_titles.py:53-54 | one step of the update loop gives the updated course and keeps its keys |
| CourseTitles.PatchAll | scripts/fix_course_titles.py:52-54 | the updated list has as many courses as the original |
| CourseTitles.PatchAllAt | scripts/fix_course_titles.py:52-54 | course i of the updated list is course i of the original, updated on its own |
| CourseTitles.PatchAllKeepsFixed | scripts/fix_course_titles.py:52-54 | a list whose every course is left alone by the update is left alone by the update loop |
| CourseTitles.PatchAllIdempotent | scripts/fix_course_titles.py:52-54 | running the update loop a second time over its own output changes nothing |
| CourseTitles.FixTitles | scripts/fix_course_titles.py:52-54 | the loop updates the list in place: afterwards it is the updated list (`PatchAll`) of its old contents, with the same length |

## Left out

- Reading the catalog and vectors from JSON files (`load_data`), reading and writing `data/courses.json`, and the script's progress printing: file I/O. The catalog, the vectors and the course list are parameters.
- The embedding service call and the `KeyError` on a response without `embedding`: a remote call. Its outcome is an `Embedding` input, either a vector or a failure with its message.
- The chat endpoint, the CV parser, the health endpoint, FastAPI routing and the pydantic request models: framework plumbing and remote calls.
- The UI pages and the other scripts (data conversion, inspection, debugging, size checks): I/O and presentation only.
- Cosine.Similarity: floating point is modelled as `real`, so rounding, overflow, NaN and the ordering of NaN in the sort are not modelled. `math.sqrt` is the parameter `root`. Properties that depend on its value assume `root(0) == 0` or a true square root.
- Matcher.MatchSpec: a JSON row is a map from text keys to text values, so `id` and `nama` are text. Rows that are not objects and non-text field values are not modelled.
- Matcher.Match: `float(score)` is the identity on `real`.
- Ranking.SortByScore: requires its input in ascending index order, which the scoring loop always produces. Stability is stated as equal scores in ascending index order, not for arbitrary inputs.
- Text.TitleCase: `str.title` and `str.lower` are modelled on ASCII letters only. Other Unicode letters are treated as non-letters.
- CourseTitles.Patched: a course without `title`, or a placeholder course without `url`, makes the script stop with a `KeyError`. The model requires both keys instead (`Patchable`).
- CourseTitles.FixTitles: courses are values in an array, so aliasing between course objects is not modelled. Course fields are modelled as text values only.
