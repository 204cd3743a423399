# Hybrid book recommender — a Dafny model

This project models the recommendation core of a book recommender.

A request names preferred genres, authors, countries, languages, themes, a year range and liked titles. The hybrid recommender handles it in these steps:

- It filters the book catalog by the request. When no book survives, it falls back to the whole catalog.
- It asks two models to score the candidates:
  - a content-based model, which compares the request text with each book's text;
  - a collaborative model, which counts co-occurrences in users' interaction baskets and adds a popularity prior.
- It blends the two scores as `alpha * content + (1 - alpha) * collab`.
- It boosts books whose country and language are rarer among the candidates.
- It ranks the books by score and renders the top `max(1, limit)` books as records. Each record carries a short explanation. Books whose title the user already liked are skipped.

Offline metrics score a recommended list against a set of relevant ids: precision@k, recall@k and NDCG@k.

Modules:

- `Text` (`text.dfy`): the Python string operations the core relies on:
  - `lower`, restricted to ASCII;
  - `strip`, with whitespace as `str.isspace` defines it below U+0100;
  - `split` and `join`;
  - `in` on strings;
  - single-character `replace`.
- `Catalog` (`catalog.dfy`): the book row and the request and output records. It also holds the lookups shared by all scorers:
  - the first row with an id (`iloc[0]`);
  - the rating proxy `rating_count * avg_rating`;
  - the last-wins dictionaries built from rows.
- `Collaborative` (`collaborative.dfy`): the class `CollaborativeRecommender`. Its tables are updated in place by `Fit`, and its scores are computed by loops. The co-occurrence table is proved equal to a closed form over the users' baskets.
- `ContentBased` (`content_based.dfy`): the class `ContentBasedRecommender`:
  - corpus construction;
  - the query text;
  - the mapping from candidates to fitted rows.

  TF-IDF and cosine similarity are an abstract `Similarity` function that `Fit` receives.
- `Hybrid` (`hybrid.dfy`):
  - the filters, proved equal to a single conjunctive pass;
  - blending;
  - the diversity boost;
  - explanations;
  - genre-list parsing;
  - ranking;
  - the output loop;
  - the class `HybridRecommender` with `Initialize` and `Recommend`.
- `Metrics` (`metrics.dfy`): the three metrics. Python's slice rules for `recommended[:k]` are modelled exactly, including negative `k`. The discount `log2(idx + 2)` is an abstract function that is at least 1 and non-decreasing.

## Model

| member | source | states |
|---|---|---|
| Text.Split | recommender/hybrid.py:157 | `str.split` always yields at least one piece |
| Text.Lower | recommender/collaborative.py:66-68 | `lower()`: one character out per character in, each mapped through the letter case table; the title index and the liked-title lookup in `TitleIndexStep`, `ResolveTitles` and `RenderedIncludes` are stated over it |
| Text.SplitJoinRoundTrip | recommender/hybrid.py:157 | splitting the `\|`-join of separator-free parts gives the parts back |
| Text.JoinBlank | recommender/content_based.py:50 | a space-joined text is blank exactly when every token is blank |
| Text.Strip | recommender/content_based.py:58 | `strip()`: drop leading, then trailing whitespace; what it computes is stated in `StripShape`, `StripCuts` and `StripStripped` |
| Text.StripShape | recommender/content_based.py:58 | `strip()` is empty iff the text is all whitespace; otherwise it neither starts nor ends with whitespace. It is the slice of the input left after cutting a whitespace-only prefix and a whitespace-only suffix |
| Text.StripCuts | recommender/content_based.py:58 | the cut points of `strip()` are the leading whitespace count and the kept length: what lies before and after them is whitespace |
| Text.StripStripped | recommender/hybrid.py:157 | `strip()` leaves a text without outer whitespace unchanged |
| Catalog.FirstRow | recommender/hybrid.py:138-141 | a row is found exactly when some row carries the id; the row found carries it, and no earlier row does |
| Catalog.LastIndex | recommender/content_based.py:69 | the position a position dictionary keeps is the last occurrence of the id |
| Catalog.ProxyScores | recommender/collaborative.py:22-24 | the id-to-rating-proxy dictionary built row by row, later rows overwriting earlier ones (also content_based.py:60-65); keys and values stated in `ProxyScoresLastRow` |
| Catalog.ProxyScoresLastRow | recommender/content_based.py:60-65 | the popularity-proxy dictionary has exactly the row ids as keys, each scored by its last row |
| Collaborative.CollaborativeRecommender.constructor | recommender/collaborative.py:12-17 | a new recommender has empty tables |
| Collaborative.CollaborativeRecommender.Fit | recommender/collaborative.py:19-48 | without an interactions file, the popularity gains the rating proxy of every book. With missing columns, nothing changes. Otherwise: the log is kept; popularity is the per-book strength sum; every co-occurrence entry equals the pair count over the users' baskets, and the table is symmetric; its keys are the logged books; the item set gains them |
| Collaborative.CollaborativeRecommender.AddBasket | recommender/collaborative.py:39-48 | one basket adds, to every entry (a, b), the number of its ordered pairs i < j that are (a, b) or (b, a); every basket book gets a row and joins the item set |
| Collaborative.CollaborativeRecommender.AddPairs | recommender/collaborative.py:43-48 | the inner loop bumps (a, b) and (b, a) once per later book |
| Collaborative.CollaborativeRecommender.AddPosition | recommender/collaborative.py:39-48 | one position of a basket keeps the loop state: the pairs starting before the next position are counted, the row and item set hold the basket once any position is done, and the update count grows by the number of later books |
| Collaborative.CollaborativeRecommender.FitFromCatalog | recommender/collaborative.py:22-24 | each catalog row, in order, sets its id's popularity to its rating proxy, so the last row with an id wins |
| Collaborative.CollaborativeRecommender.FitFromLog | recommender/collaborative.py:30-48 | the log is kept; popularity is the per-book strength sum; the table equals the pair counts over the users' baskets, is symmetric, and is keyed by the logged books |
| Collaborative.CollaborativeRecommender.ScoreByCooccurrence | recommender/collaborative.py:50-60 | every score is the sum over liked ids of their counts with the book, plus 0.05 times its popularity; the keys are the liked ids' partners plus the popular books |
| Collaborative.CollaborativeRecommender.ScoreCandidates | recommender/collaborative.py:62-79 | no candidates give no scores. Otherwise the scores are non-empty and keyed by candidate ids. With no resolved liked title and no popularity, they are the candidates' rating proxy. Otherwise they are the co-occurrence scores restricted to candidates, falling back to the proxy when that restriction is empty |
| Collaborative.AddCounts | recommender/collaborative.py:55-56 | adds one row of counts to the scores, key by key |
| Collaborative.AddPrior | recommender/collaborative.py:58-59 | adds 0.05 times each popularity to the scores |
| Collaborative.TitleIndex | recommender/collaborative.py:68 | the title index holds exactly the lower-cased candidate titles, each mapped to the id of the LAST row with that title (no later row has it) |
| Collaborative.TitleIndexStep | recommender/collaborative.py:68 | appending a row makes its id the entry of its title and keeps the other titles' last rows |
| Collaborative.ResolveTitles | recommender/collaborative.py:69 | the liked ids are empty exactly when no liked title is indexed; each comes from an indexed liked title, and every indexed liked title yields its id |
| Collaborative.ResolveAppend | recommender/collaborative.py:69 | resolving a concatenation resolves each part in turn, so ids keep the order of their titles, repeats included |
| Collaborative.ResolveKeeps | recommender/collaborative.py:69 | every indexed title yields its id at the position counted by the indexed titles before it |
| Collaborative.BumpFacts | recommender/collaborative.py:46-48 | one bump adds exactly 1 to one entry and keeps every entry positive |
| Collaborative.CoocCount | recommender/collaborative.py:37-48 | the co-occurrence entry (a, b) as the sum over the users' baskets of their pair counts; symmetry, positivity iff a shared basket, and the closed form per basket in `CoocSymmetric`, `CoocPositiveIffShared`, `BasketCountClosedForm`, and `FitFromLog` proves the table equals it |
| Collaborative.PairsClosedForm | recommender/collaborative.py:39-48 | a basket of n books makes n(n-1)/2 pair updates |
| Collaborative.RowCountClosedForm | recommender/collaborative.py:43-48 | one inner loop's contribution is given by the multiset of the later books |
| Collaborative.BasketCountClosedForm | recommender/collaborative.py:39-48 | a basket adds m(a)·m(b) to (a, b) for a ≠ b and m(a)(m(a)-1) to (a, a): the order of the basket, and so its sort by strength, does not matter |
| Collaborative.CoocSymmetric | recommender/collaborative.py:46-48 | the co-occurrence counts are symmetric |
| Collaborative.BasketPositiveIffBoth | recommender/collaborative.py:43-48 | for distinct books, one basket counts a pair exactly when it holds both |
| Collaborative.CoocPositiveIffShared | recommender/collaborative.py:37-48 | for distinct books, the count is positive iff some basket holds both |
| Collaborative.CooccurrenceMeansSharedUser | recommender/collaborative.py:37-48 | for distinct books, the count is positive iff some user interacted with both |
| Collaborative.UsersMembership | recommender/collaborative.py:37 | the grouped users are exactly the users of the log |
| Collaborative.BasketMembership | recommender/collaborative.py:37-38 | a user's basket holds exactly the books that user interacted with |
| Collaborative.AllItemsMembership | recommender/collaborative.py:41-45 | the item set holds exactly the books of some basket |
| Collaborative.BasketsCoverLog | recommender/collaborative.py:37-45 | the baskets together hold exactly the logged books |
| Collaborative.PopularityAppend | recommender/collaborative.py:33-34 | one more interaction adds its strength to its book's popularity |
| Collaborative.Popularity | recommender/collaborative.py:33-34 | `groupby("book_id")["strength"].sum()`: one entry per logged book, its strength sum; appending a row in `PopularityAppend`, absent books in `StrengthSumAbsent`, and `FitFromLog` proves the popularity field equals it |
| Collaborative.StrengthSumAbsent | recommender/collaborative.py:33 | a book absent from the log has no strength |
| Collaborative.LikedSumOutsidePartners | recommender/collaborative.py:52-56 | a book no liked id co-occurs with gets no co-occurrence score |
| Collaborative.LikedSum | recommender/collaborative.py:52-56 | a candidate's co-occurrence score: the sum over liked ids, repeats included, of their counts with it; zero outside the partners by `LikedSumOutsidePartners`, and `ScoreByCooccurrence` proves its loop computes it |
| Collaborative.LikedStep | recommender/collaborative.py:52-56 | one more liked id adds its table row to the partners and to the sums |
| Collaborative.SampleBaskets | recommender/collaborative.py:37-38 | the sample log groups into the baskets [1,2], [1,3], [4,5] |
| Collaborative.SampleCooccurrence | recommender/collaborative.py:37-48 | the sample log yields counts 1 for (1,2), (1,3), (4,5) and 0 for (1,4) |
| ContentBased.NonEmpty | recommender/content_based.py:39 | the kept fields are non-empty fields, every non-empty field is kept, and none is kept only when all are empty |
| ContentBased.NonEmptyAppend | recommender/content_based.py:39 | filtering a concatenation filters each part in turn, so kept fields stay in order |
| ContentBased.NonEmptyKeeps | recommender/content_based.py:39 | every non-empty field is kept at the position counted by the non-empty fields before it |
| ContentBased.BuildCorpus | recommender/content_based.py:27-40 | one document per row, in row order, each the space-join of its non-empty fields with pipes replaced |
| ContentBased.Document | recommender/content_based.py:27-40 | one book's text: its non-empty fields joined by spaces; emptiness in `DocumentEmptyIff`, tokens in `DocumentTokens`, pipes in `PipesReplaced`, and `BuildCorpus` proves the corpus is made of it |
| ContentBased.DocumentEmptyIff | recommender/content_based.py:30-39 | a document is empty exactly when all seven fields are empty; a missing description is never empty, since it is written "nan" |
| ContentBased.DocumentTokens | recommender/content_based.py:39 | splitting a document on spaces gives back the split fields |
| ContentBased.PipesReplaced | recommender/content_based.py:33-34 | the genre and theme fields hold no pipe |
| ContentBased.QueryBlankIff | recommender/content_based.py:42-50 | the query text strips to empty exactly when every token is blank |
| ContentBased.QueryText | recommender/content_based.py:42-50 | the request's query text: its tokens joined by spaces; blank iff every token is blank by `QueryBlankIff`, tokens recovered by `QueryTokensRoundTrip` |
| ContentBased.QueryTokensRoundTrip | recommender/content_based.py:42-50 | space-free tokens are recovered by splitting the query text |
| ContentBased.IdIndex | recommender/content_based.py:69 | the id index maps each fitted id to the position of its last occurrence |
| ContentBased.IdIndexIsLast | recommender/content_based.py:69 | that position is the last occurrence of the id |
| ContentBased.CandidateIndices | recommender/content_based.py:70 | one index per candidate, -1 exactly for ids that were not fitted |
| ContentBased.ValidPositions | recommender/content_based.py:71 | the mask holds exactly the positions whose index is not -1 |
| ContentBased.PickedIdsMembership | recommender/content_based.py:74-81 | the scored ids are the ids at the mask positions |
| ContentBased.MaskCoversFitted | recommender/content_based.py:69-74 | the masked candidates are exactly the candidate ids that were fitted |
| ContentBased.PopularityScores | recommender/content_based.py:58-65 | the popularity fallback is the rating-proxy dictionary of the candidates |
| ContentBased.ContentBasedRecommender.constructor | recommender/content_based.py:13-18 | a new model is unfitted and empty |
| ContentBased.ContentBasedRecommender.Fit | recommender/content_based.py:20-25 | keeps the catalog and its ids, and builds one document per row |
| ContentBased.ContentBasedRecommender.ScoreCandidates | recommender/content_based.py:52-82 | an unfitted model or no candidates give no scores. A blank query gives the rating proxy. Otherwise the keys are exactly the fitted candidate ids, each scored by the similarity of the query with its last fitted row |
| ContentBased.ContentBasedRecommender.ScoreByRows | recommender/content_based.py:66-82 | the similarity scores cover exactly the fitted candidate ids |
| ContentBased.ContentBasedRecommender.LocateCandidates | recommender/content_based.py:68-74 | each mask position points at a fitted candidate and its last fitted row |
| Hybrid.CandidateRows | recommender/hybrid.py:120-123 | the candidates are empty only for an empty catalog |
| Hybrid.FiltersAreConjunctive | recommender/hybrid.py:47-61 | the six chained filters equal one pass that keeps the rows passing every active stage |
| Hybrid.ApplyFilters | recommender/hybrid.py:47-61 | the filter stages applied in turn; a row survives iff it passes every active stage and order is kept, by `FiltersAreConjunctive`, `EligibleMeans` and `FiltersSelect` |
| Hybrid.EligibleMeans | recommender/hybrid.py:47-61 | a row passes iff, for each supplied criterion: its genres match, or its lower-cased author, country or language is among the lower-cased requested ones, or it has a year within the bound |
| Hybrid.FiltersSelect | recommender/hybrid.py:47-61 | the filtered rows keep catalog order, and a row is kept iff it passes every active stage |
| Hybrid.SelectEligibleSelects | recommender/hybrid.py:47-61 | the reference pass keeps catalog order and exactly the passing rows |
| Hybrid.BlendBetween | recommender/hybrid.py:63-70 | for 0 ≤ alpha ≤ 1 the blend lies between the two models' scores |
| Hybrid.Blend | recommender/hybrid.py:69 | `alpha * content + (1 - alpha) * collab`, a missing score read as 0; between the two scores by `BlendBetween`, one-sided cases by `BlendOneSided` |
| Hybrid.BlendOneSided | recommender/hybrid.py:67-69 | an id only one model scored gets that model's weighted score |
| Hybrid.MaxCount | recommender/hybrid.py:79-80 | the largest facet count bounds every row's count and is attained |
| Hybrid.FacetMax | recommender/hybrid.py:79-80 | the maximum is 1 for no rows; otherwise it bounds every row's count and is the count of some row |
| Hybrid.Share | recommender/hybrid.py:91-93 | a count's share of the maximum is at most 1, positive for a present value, and 1 for the most frequent value |
| Hybrid.ShareMonotone | recommender/hybrid.py:91-93 | a smaller count has a smaller share |
| Hybrid.FacetCountPositive | recommender/hybrid.py:77-78 | the facet value of a candidate is counted at least once |
| Hybrid.RarityTermBounds | recommender/hybrid.py:90-93 | each rarity term of a candidate lies in [0, 1) |
| Hybrid.RarityBounds | recommender/hybrid.py:89-93 | a candidate's rarity lies in [0, 2) |
| Hybrid.BoostBounds | recommender/hybrid.py:94 | for a non-negative score and weight the boost keeps the score between base and base·(1 + weight) |
| Hybrid.ScaleBounds | recommender/hybrid.py:94 | the same bound for any rarity in [0, 2] |
| Hybrid.ScaleMonotone | recommender/hybrid.py:94 | a rarer book gets a strictly larger boost |
| Hybrid.MostFrequentKeepsBase | recommender/hybrid.py:89-94 | a book of the most frequent country and language keeps its score |
| Hybrid.Adjusted | recommender/hybrid.py:72-95 | a candidate's score after the diversity boost, unchanged for an id without a row; bounds in `BoostBounds`, `ScaleBounds`, the most frequent facet keeps the base by `MostFrequentKeepsBase`, rarer countries score higher by `RarerCountryScoresHigher`, and `ApplyDiversityBoost` proves its loop computes it |
| Hybrid.RarerCountryScoresHigher | recommender/hybrid.py:89-94 | of two books of one language, the one from the rarer country scores higher |
| Hybrid.SourceNotes | recommender/hybrid.py:144-148 | "content" is noted iff the content model scored the id and comes first; "collab" is noted iff the collaborative one did |
| Hybrid.ChosenSelects | recommender/hybrid.py:98-110 | a reason text is chosen iff its condition holds |
| Hybrid.ChosenFrom | recommender/hybrid.py:98-110 | the chosen reasons keep their priority order |
| Hybrid.ReasonsExact | recommender/hybrid.py:97-110 | each of the six reasons appears iff its condition holds, in priority order |
| Hybrid.Reasons | recommender/hybrid.py:97-110 | the reasons in source order whose conditions hold; exactly those, by `ReasonsExact`, `ChosenSelects` and `ChosenFrom` |
| Hybrid.ExplanationKeepsFirstTwo | recommender/hybrid.py:111 | only the first two reasons reach the explanation |
| Hybrid.Explanation | recommender/hybrid.py:111-113 | the first two reasons (or the fallback) joined by "; ", then the signal notes; stated in `ExplanationKeepsFirstTwo` and `ExplanationParts` |
| Hybrid.ExplanationParts | recommender/hybrid.py:111-113 | with no reason the explanation starts with the fallback text; the signal suffix appears exactly when there are notes |
| Hybrid.StrippedNonEmpty | recommender/hybrid.py:157 | every listed genre is non-empty and stripped, and every part that is not blank is listed stripped |
| Hybrid.StrippedAppend | recommender/hybrid.py:157 | listing a concatenation lists each part in turn, so genres stay in order |
| Hybrid.StrippedKeeps | recommender/hybrid.py:157 | every part that is not blank is listed stripped at the position counted by the non-blank parts before it |
| Hybrid.StrippedIdentity | recommender/hybrid.py:157 | stripping changes no part that is already stripped and non-empty |
| Hybrid.GenreListRoundTrip | recommender/hybrid.py:157 | parsing the pipe-joined form of clean genres gives them back |
| Hybrid.GenreList | recommender/hybrid.py:157 | the `\|`-separated genre text as a list of stripped, non-empty names; recovered by `GenreListRoundTrip`, its parts by `StrippedNonEmpty` |
| Hybrid.Insert | recommender/hybrid.py:132 | insertion keeps the list sorted by descending score and adds exactly the item |
| Hybrid.SortByScore | recommender/hybrid.py:132 | the ranking is sorted by descending score and is a permutation of the items |
| Hybrid.FinalScoresCover | recommender/hybrid.py:63-70 | every id either model scored has a final score, so a non-empty collaborative result gives a non-empty ranking |
| Hybrid.FinalScores | recommender/hybrid.py:125-129 | the final score map: keys are the ids either model scored, each the boosted blend; keys in `FinalScoresCover`, and `ScoreAll` proves its output equals it |
| Hybrid.ItemsOf | recommender/hybrid.py:132 | the items are the map's entries, each id once |
| Hybrid.SortedKeepsItems | recommender/hybrid.py:132 | sorting keeps exactly the map's entries |
| Hybrid.SingleOccurrence | recommender/hybrid.py:132 | with distinct ids no item occurs twice |
| Hybrid.RenderOneShape | recommender/hybrid.py:138-162 | an item renders one entry with its id and score iff it has a candidate row whose title is not liked |
| Hybrid.RenderOne | recommender/hybrid.py:138-162 | one ranked id rendered: nothing for an id without a candidate row, otherwise one entry from its first row; shape in `RenderOneShape`, and `RenderItem` proves the method builds it |
| Hybrid.Rendered | recommender/hybrid.py:135-162 | the ranked ids rendered in rank order; drawn from the candidates by `RenderedFromCandidates`, ordered by `RenderedOrdered`, prefix-stable by `RenderedPrefix`, complete by `RenderedIncludes` and `TopKComplete` |
| Hybrid.RenderItem | recommender/hybrid.py:138-162 | one loop pass skips an item without a candidate row or with a liked title, and otherwise renders its record |
| Hybrid.RenderedFromCandidates | recommender/hybrid.py:135-162 | every entry comes from a ranked item with a candidate row. Its title and author come from that row, and its title is not liked |
| Hybrid.RenderedOrdered | recommender/hybrid.py:132-162 | at most one entry per item; scores non-increasing when the ranking is sorted; distinct ids when the ranking has distinct ids |
| Hybrid.RenderedPrefix | recommender/hybrid.py:135-143 | rendering a prefix of the ranking gives a prefix of the output |
| Hybrid.RenderedIncludes | recommender/hybrid.py:135-162 | every eligible ranked item is rendered |
| Hybrid.TopEntries | recommender/hybrid.py:133-163 | the answer has at most `cap` entries, non-increasing scores and distinct ids. Every entry is a ranked candidate and not a liked title |
| Hybrid.TopKComplete | recommender/hybrid.py:135-143 | an eligible item missing from the answer was crowded out by `cap` entries scoring at least as much |
| Hybrid.RenderTop | recommender/hybrid.py:133-143 | the early-exit loop returns the first `cap` entries of the full rendering |
| Hybrid.HybridRecommender.constructor | recommender/hybrid.py:15-25 | alpha and the diversity weight come from the configuration or default to 0.6 and 0.15; nothing is loaded |
| Hybrid.HybridRecommender.Initialize | recommender/hybrid.py:27-45 | a missing books file gives the error "Books CSV not found: <path>" and changes nothing. Otherwise the books are kept and fresh models are fitted on them: the content model holds the catalog and the similarity; the collaborative model holds, per log case, the proxy popularity, nothing, or the logged popularity, the symmetric pair counts over the baskets, the item set and the update count |
| Hybrid.HybridRecommender.BlendScores | recommender/hybrid.py:63-70 | the blend covers the union of both models' ids, each with the alpha-weighted sum |
| Hybrid.HybridRecommender.ApplyDiversityBoost | recommender/hybrid.py:72-95 | no candidates or no scores leave the scores unchanged. Otherwise every id keeps its key: ids without a row keep their score, the others are boosted by their first row's rarity |
| Hybrid.HybridRecommender.RowRarity | recommender/hybrid.py:87-93 | the rarity of a row is the sum of its country and language terms |
| Hybrid.HybridRecommender.ScoreModels | recommender/hybrid.py:125-126 | the content scores and the collaborative scores are what each model's `score_candidates` promises for its own state, and both cover candidates only |
| Hybrid.HybridRecommender.ScoreAll | recommender/hybrid.py:125-129 | the two models' scores are what each model promises; both cover candidates only; the final scores are blended and then boosted, and are non-empty for any candidates |
| Hybrid.HybridRecommender.Rank | recommender/hybrid.py:132 | the ranking lists every scored id once with its score, by descending score, and is empty only for no scores |
| Hybrid.HybridRecommender.Recommend | recommender/hybrid.py:116-163 | with no books, the error "Books not loaded". Otherwise: the two models' scores are what each model promises for the candidates; the ranking sorts the final scores descending and is non-empty for a non-empty catalog; the answer is the first max(1, limit) eligible entries, at most that many; scores non-increasing, ids distinct; every entry a candidate whose title is not liked |
| Metrics.PyPrefix | evaluation/metrics.py:10 | `recommended[:k]` is a prefix of length min(k, n) for k ≥ 0 and max(0, n + k) for negative k |
| Metrics.Hits | evaluation/metrics.py:11 | the hit count is at most the length of the prefix |
| Metrics.Precision | evaluation/metrics.py:7-12 | precision is 0 for k ≤ 0, lies in [0, 1], and times k equals the hits |
| Metrics.Recall | evaluation/metrics.py:15-20 | recall is 0 for no relevant ids, non-negative, and times the number of relevant ids equals the hits |
| Metrics.PrecisionRecall | evaluation/metrics.py:7-20 | precision·k = recall·\|relevant\| for k > 0 and relevant ids present |
| Metrics.WholeList | evaluation/metrics.py:10 | a k at or past the end measures the whole list |
| Metrics.HitsOfDistinct | evaluation/metrics.py:19 | without repeated entries the hits are the relevant ids the prefix contains |
| Metrics.RecallBoundedWithoutRepeats | evaluation/metrics.py:15-20 | recall lies in [0, 1] when the list has no repeats |
| Metrics.RecallCountsRepeats | evaluation/metrics.py:15-20 | a repeated relevant entry counts twice, so recall can exceed 1 |
| Metrics.Gains | evaluation/metrics.py:28 | one 0/1 gain per entry, 1 exactly for a relevant entry |
| Metrics.Ideal | evaluation/metrics.py:29 | the ideal order is non-increasing and a permutation of the gains |
| Metrics.IdealPermutation | evaluation/metrics.py:29 | ones first, then zeros, is a permutation of the gains |
| Metrics.SortedIsIdeal | evaluation/metrics.py:29 | non-increasing gains are already in ideal order |
| Metrics.DcgNonnegative | evaluation/metrics.py:24-25 | the DCG of 0/1 gains is non-negative |
| Metrics.Dcg | evaluation/metrics.py:24-25 | discounted cumulative gain: each gain over the discount of its position; non-negative by `DcgNonnegative`, at most the ideal order's by `DcgAtMostIdeal` |
| Metrics.DcgAtMostIdeal | evaluation/metrics.py:24-30 | no order of the gains has a larger DCG than the ideal order |
| Metrics.NdcgWithoutHits | evaluation/metrics.py:23-33 | NDCG is 0 when the top k hold no relevant id |
| Metrics.Ndcg | evaluation/metrics.py:23-33 | NDCG@k: the DCG of the first k gains over the ideal DCG, 0 when the ideal is 0; bounds and ideal order in `NdcgBounds`, `NdcgOfIdealOrder`, `NdcgWithoutHits` |
| Metrics.NdcgOfIdealOrder | evaluation/metrics.py:23-33 | NDCG is exactly 1 when there is a hit and the gains are non-increasing |
| Metrics.NdcgBounds | evaluation/metrics.py:23-33 | NDCG lies in [0, 1] |

## Left out

- TF-IDF vectorisation and cosine similarity (recommender/content_based.py:24-25, 66-67, 76) are the abstract `ContentBased.Similarity` function given to `Fit`. Scores are modelled as exact reals, not floats.
- Metrics.Precision, Metrics.Recall and Metrics.Ndcg use exact reals where the source divides floats (`hits / k` at evaluation/metrics.py:12, `hits / len(relevant)` at :20, the `score / log2(idx + 2)` terms at :25 and `dcg(gains) / ideal_dcg` at :33). Float rounding is not modelled, so the bounds proved about them hold of the exact quotients.
- The regular-expression genre filter (recommender/hybrid.py:50) is the abstract `Hybrid.GenreMatcher`. It is total, so the `re.error` that `str.contains` raises for a requested genre that is not a valid pattern is not modelled.
- File I/O is not modelled:
  - `os.path.exists` and `pd.read_csv` for the books file are the `loaded` parameter of `Initialize` (None for a missing file);
  - the interactions file is `Collaborative.InteractionLog`: no file, missing columns, or the rows.
- Of the loader's `fillna` (recommender/hybrid.py:39-45), the model keeps its effect on genres, themes, author, country, language and title: a `Book` holds them as strings, `""` where the cell was empty. The description is not filled: `Book.description` is None for an empty cell, and the document writes it as "nan" (recommender/content_based.py:35).
- Rows carry no `rating_count` or `avg_rating` default: every `Book` has both, so the `row.get(..., default)` fallbacks (recommender/collaborative.py:24, 72, 78; recommender/content_based.py:62-63) are not modelled.
- The users are taken in order of first appearance, not in the sorted key order of `groupby("user_id")` (recommender/collaborative.py:37). The co-occurrence counts, the item set and the update count are sums and unions over users, so the order does not change them.
- The collaborative basket order is row order, not the sort by `event_strength` (recommender/collaborative.py:38). `Collaborative.BasketCountClosedForm` proves that the counts depend only on each basket's multiset, so the sort cannot change them.
- Dictionary and set iteration order is not modelled:
  - for `all_ids` (recommender/hybrid.py:64);
  - for the blend and boost loops;
  - for ties in `sorted` (recommender/hybrid.py:132).

  `Hybrid.HybridRecommender.Recommend` ranks through any descending order of the final scores, returned as a ghost `ranked`.
- Before `initialize`, the sub-models are fresh, unfitted objects rather than `None`. `recommend` before `initialize` fails on `self.books is None` either way.
- `Text.Lower` folds ASCII letters only. `Text.Strip` knows the whitespace code points below U+0100 only.
- `log2` is the abstract `Metrics.Discount`, required to be at least 1 and non-decreasing, as `log2(idx + 2)` is.
- Scikit-learn's error on an empty vocabulary is not modelled.
- The ANN index, the graph client, the cache and the HTTP service are not part of this model.
