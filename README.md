# Customer-review analytics core, modelled in Dafny

This project models the self-contained decision and data logic of a review-analytics
pipeline for three banks' mobile apps, and proves properties of that logic:

- **Sentiment reconciliation** (`SentimentEnsembler`, module `Sentiment`). It computes:
  - the equal-weight ensemble of three scorer outputs;
  - the three-way label with inclusive ±0.05 cut-offs;
  - the population standard deviation of the scores (kept as its square);
  - the star-rating rule with its "neutral" fallback;
  - the magnitude-gated disagreement flag.

  `run` is a loop over the rows that appends one record per row. The three scorers
  are a parameter.
- **Theme tagging and key phrases** (`ThemeExtractor`, `KeyPhraseExtractor`, module `Themes`):
  - `tag_review` is an imperative method with nested loops and an early exit, proved
    against the function `Tags`;
  - `tag_corpus` is a function over the table;
  - `extract_phrases` and `extract_top_phrases` are loops proved against
    `Phrases` / `CorpusPhrases` and `collections.Counter.most_common` (module `Counter`).

  spaCy's noun chunker and the stopword set are parameters.
- **Review cleaning** (`ReviewDataCleaner`, module `Cleaner`). This is a class whose
  `df` field `load_raw_data` sets and `clean` replaces. `Clean` goes through the
  source's steps on local state:
  - null filter;
  - blank filter;
  - deduplication by `reviewId`, keeping the first;
  - whitespace normalisation.

  It also records the drop counts the source logs.
- **Text normalisation** (`TextNormalizer`, module `Normalizer`):
  - the URL pass, character filter, whitespace collapse and lowercase of `_basic_clean`;
  - the guards of `_correct_spelling` and `_lemmatize`;
  - the `normalize` stage pipeline.

  SymSpell's `lookup_compound` and spaCy's token analysis are parameters.
- **Theme metrics** (`ThemeMetricsCalculator`, module `ThemeMetrics`):
  - constructor validation;
  - `compute_for_bank`: bank filter, `explode`, `groupby`/`agg` (count and two means),
    composite score, sort by mentions.
- **Theme data loading** (`DataLoader`, module `ThemeLoader`):
  - the constructor's type check;
  - the required-column check of `load`;
  - `_parse_themes`, with `ast.literal_eval` as a parameter that returns a value,
    a caught `ValueError`/`SyntaxError`, or any other exception.

Shared modules:
- `Table`: the DataFrame as a column set and a sequence of row maps; cells that are
  text, numbers, missing values or lists; the error kinds; an in-order traversal that
  stops at the first failing row.
- `Strings`: Python's whitespace, `strip`, `split`, `lower` and substring test, and the
  `re.sub(r"\s+", " ", s).strip()` normalisation.
- `Seqs`: subsequences, filtering, counting.

The comment at src/nlp/sentiment_classifier.py:143 says a disallowed label falls back
to the "nearest allowed" one. The code at :144 always returns "neutral", which rating 1
does not allow. The model follows the code, and `Sentiment.RuleLabelAdmissible` states
exactly when the fallback is inadmissible.

## Model

| member | source | states |
|---|---|---|
| Sentiment.Classify | src/nlp/sentiment_classifier.py:108-113 | Exactly one of the three labels. "positive" iff score ≥ 0.05, "negative" iff score ≤ −0.05, "neutral" iff strictly between; both cut-offs inclusive. |
| Sentiment.ComputeEnsemble | src/nlp/sentiment_classifier.py:99-122 | The record keeps the three scores. Its ensemble is their mean (bert + vader + textblob) / 3, so it lies between the smallest and the largest score. Its label is `Classify` of that mean. Its squared uncertainty is the population variance of the three scores. |
| Sentiment.EnsembleInRange | src/nlp/sentiment_classifier.py:104 | The ensemble lies in [−1, 1] whenever each score does. |
| Sentiment.UncertaintySpec | src/nlp/sentiment_classifier.py:106 | The squared population std is ≥ 0, and it is 0 iff the three scores are equal. |
| Sentiment.UncertaintyExample | src/nlp/sentiment_classifier.py:106 | Scores 1, −1, 0 have squared std 2/3: ddof 0, not the sample std. |
| Sentiment.ApplyRatingRule | src/nlp/sentiment_classifier.py:133-144 | The rule label is the ensemble label or "neutral". |
| Sentiment.RatingRuleByRating | src/nlp/sentiment_classifier.py:133-144 | Rating ≥ 3 (including above 5) keeps any known label. Rating 2 and rating ≤ 1 keep "negative" and turn everything else into "neutral". |
| Sentiment.RuleLabelRange | src/nlp/sentiment_classifier.py:133-144 | Never "positive" for rating ≤ 2. Always one of the three labels. |
| Sentiment.RuleLabelAdmissible | src/nlp/sentiment_classifier.py:141-144 | The rule label is admissible for the rating iff rating ≥ 2 or the label was "negative". |
| Sentiment.RatingRuleIdempotent | src/nlp/sentiment_classifier.py:144 | Applying the rule to its own output changes nothing. |
| Sentiment.FlagDisagreement | src/nlp/sentiment_classifier.py:169-171 | KeyError (naming the label) iff the rule label is unknown, whatever the other arguments are. |
| Sentiment.FlagSpec | src/nlp/sentiment_classifier.py:169-171 | Equal labels are never flagged. A mismatch is flagged iff the score is strictly more than the threshold away from the rule label's target: +1 for "positive", 0 for "neutral", −1 for "negative". |
| Sentiment.Score | src/nlp/sentiment_classifier.py:203-207 | The record is `compute_ensemble` plus the rule label, and flag ⇔ rating ≤ 2 ∧ ensemble > 0.5. |
| Sentiment.NeverFlagged | src/nlp/sentiment_classifier.py:204-207 | Rating ≥ 3 or a non-positive ensemble is never flagged. |
| Sentiment.FlagExamples | src/nlp/sentiment_classifier.py:108-113 | Unanimous +1 with one star is flagged, with rule label "neutral". Unanimous 0.05 with five stars is labelled "positive" and not flagged. |
| Sentiment.Truncate | src/nlp/sentiment_classifier.py:202 | `int()` of a float truncates toward zero. |
| Sentiment.ParseInt | src/nlp/sentiment_classifier.py:202 | `int()` of a string succeeds iff, after stripping whitespace and one optional sign, what is left is digits with single underscores between digits. The value is the sign times the decimal value of the digits. Every failure is a ValueError. |
| Sentiment.ParseIntRoundTrip | src/nlp/sentiment_classifier.py:202 | `int(str(n)) == n` for every integer n. |
| Sentiment.ParseStripped | src/nlp/sentiment_classifier.py:202 | `int()` gives the same result on a string and on its stripped form. |
| Sentiment.ParseIntPadded | src/nlp/sentiment_classifier.py:202 | A leading blank and a trailing newline do not change what `int()` reads. |
| Sentiment.ParseDigits | src/nlp/sentiment_classifier.py:202 | `int()` of a plain digit string is its decimal value. |
| Sentiment.ParseIntUnderscore | src/nlp/sentiment_classifier.py:202 | "1_0" reads as 10. |
| Sentiment.ParseIntLeadingZeros | src/nlp/sentiment_classifier.py:202 | "-007" reads as −7. |
| Sentiment.ParseIntDoubleUnderscore | src/nlp/sentiment_classifier.py:202 | "1__0" is rejected. |
| Sentiment.ParseIntEdgeUnderscore | src/nlp/sentiment_classifier.py:202 | "_1" and "1_" are rejected. |
| Sentiment.ParseIntSignSpace | src/nlp/sentiment_classifier.py:202 | "- 1" is rejected. |
| Sentiment.ParseIntRejects | src/nlp/sentiment_classifier.py:202 | "4.0" and "" are rejected. |
| Sentiment.RatingOf | src/nlp/sentiment_classifier.py:202 | A number converts by truncation toward zero. A string converts as `ParseInt` says. A missing value or a list raises. |
| Sentiment.Run | src/nlp/sentiment_classifier.py:173-215 | The row loop returns exactly `RunSpec`: the column check, then one record per row, failing at the first bad rating. |
| Sentiment.RunSpecProperties | src/nlp/sentiment_classifier.py:194-215 | KeyError when the text column or "rating" is missing. Otherwise `run` fails iff some rating cannot be converted. On success: one record per row, in input order; each record is `Score` of that row's scores and converted rating, so its ensemble is that of the row's text and flag ⇔ rating ≤ 2 ∧ ensemble > 0.5. |
| Themes.TagReview | src/nlp/keyword_theme_extractor.py:150-167 | The nested loop with `break` returns `Tags(seedMap, text, bank)`. |
| Themes.MatchedMembers | src/nlp/keyword_theme_extractor.py:160-165 | A theme name is collected iff some theme with that name has a keyword that is a substring of the text. |
| Themes.MatchedSubseq | src/nlp/keyword_theme_extractor.py:159-165 | Collected themes are a subsequence of the seed dictionary's order. |
| Themes.MatchedEmpty | src/nlp/keyword_theme_extractor.py:160-166 | Nothing is collected iff no theme matches. |
| Themes.TagsDefault | src/nlp/keyword_theme_extractor.py:158-167 | Never empty. A bank missing from the seed map gets ["Other"]. |
| Themes.TagsMembers | src/nlp/keyword_theme_extractor.py:155-167 | A theme is reported iff one of its keywords is a substring of `text.lower()`. The result is ["Other"] iff no theme matches. |
| Themes.TagsOrder | src/nlp/keyword_theme_extractor.py:159-167 | When the bank's theme names are distinct, the result has no repeats and is either ["Other"] or a subsequence of the seed-map order. |
| Themes.PipelineEmptyReview | scripts/sentiment_pipeline.py:128-142 | With the pipeline's seed map, an empty review is tagged ["Other"]. |
| Themes.PipelineSlowReview | scripts/sentiment_pipeline.py:128-142 | With the pipeline's seed map, "Slow" is tagged exactly ["Performance"]: matching is after lowercasing. |
| Strings.UpperKeywordNeverOccurs | src/nlp/keyword_theme_extractor.py:155-163 | A keyword containing an ASCII capital never occurs in lowercased text. |
| Themes.TagCorpusSpec | src/nlp/keyword_theme_extractor.py:169-185 | On a frame without rows it succeeds iff the frame has exactly one column, and otherwise raises ValueError. With rows: KeyError for a missing text column, then KeyError for a missing bank column; with both columns present, it fails iff some text is not a string or some bank is a list. On success: same rows in order, only "themes" added, holding `tag_review(text, bank)` for a string bank and ["Other"] for any other non-list bank. |
| Themes.AnyStopwordSpec | src/nlp/keyword_theme_extractor.py:102 | `any(tok in stopwords ...)` holds iff some token is a stopword. |
| Themes.ExtractPhrases | src/nlp/keyword_theme_extractor.py:86-106 | The chunk loop returns `Phrases(chunks, stopwords)`. |
| Themes.CleanChunkShape | src/nlp/keyword_theme_extractor.py:96-100 | A cleaned chunk has only a-z, 0-9 and single interior spaces. |
| Themes.PhrasesShape | src/nlp/keyword_theme_extractor.py:94-106 | Every phrase is non-empty, uses only a-z, 0-9 and single interior spaces, and has no stopword token. |
| Themes.PhrasesOrder | src/nlp/keyword_theme_extractor.py:94-106 | The phrases are a subsequence of the cleaned chunks, in chunk order. |
| Themes.ExtractTopPhrases | src/nlp/keyword_theme_extractor.py:108-119 | The document loop returns `most_common(top_n)` of all phrases of the corpus, document by document. |
| Themes.TopPhrasesSpec | src/nlp/keyword_theme_extractor.py:112-119 | At most `top_n` phrases (none when `top_n` ≤ 0), all distinct. Ordered by non-increasing frequency, ties by first occurrence. No phrase left out is more frequent than one returned. Each one is well formed. |
| Counter.Keys | src/nlp/keyword_theme_extractor.py:117 | The Counter's keys are distinct and are exactly the items. |
| Counter.KeysOrder | src/nlp/keyword_theme_extractor.py:117 | The Counter's keys are listed in order of first occurrence, the insertion order that `most_common` and the first-seen id order rest on. |
| Counter.RankingSpec | src/nlp/keyword_theme_extractor.py:117-119 | The full ranking lists every distinct item once, in strict rank order. |
| Counter.MostCommonSpec | src/nlp/keyword_theme_extractor.py:117-119 | `most_common(n)` has min(n, distinct items) entries (0 when n ≤ 0), distinct, ranked, with counts non-increasing. |
| Counter.MostCommonTop | src/nlp/keyword_theme_extractor.py:119 | Every item left out ranks below every item returned. Nothing is left out when n covers all distinct items. |
| Counter.MostCommonRepeated | src/nlp/keyword_theme_extractor.py:117-119 | An item seen twice outranks one seen once. |
| Counter.MostCommonTie | src/nlp/keyword_theme_extractor.py:117-119 | Between equal counts, the item seen first ranks first. |
| Cleaner.ReviewDataCleaner.constructor | src/cleaning/review_cleaner.py:42-45 | Stores the path and the verbosity. No data is loaded. |
| Cleaner.ReviewDataCleaner.LoadRawData | src/cleaning/review_cleaner.py:47-65 | A missing file raises FileNotFoundError and leaves `df` alone. Otherwise `df` becomes the parsed table, which is returned. |
| Cleaner.ReviewDataCleaner.Clean | src/cleaning/review_cleaner.py:67-123 | ValueError when nothing is loaded. Otherwise it returns `CleanFrame` of the loaded table. On success `df` is replaced by the result and the logged counts are `Tally`; on failure `df` is unchanged. |
| Cleaner.CleanErrors | src/cleaning/review_cleaner.py:84-102 | Fails iff a required column is missing (KeyError naming the missing ones) or a surviving reviewId is a list (TypeError). |
| Cleaner.TallyAccounts | src/cleaning/review_cleaner.py:85-111 | null_dropped + blank_dropped + dup_dropped = total_before − total_after. dup_dropped is 0 without a reviewId column. |
| Cleaner.DedupFirst | src/cleaning/review_cleaner.py:98-102 | `drop_duplicates` keeps exactly the first row of each id, in order. |
| Cleaner.DedupSubseq | src/cleaning/review_cleaner.py:101 | Deduplication keeps input order. |
| Cleaner.DedupDistinct | src/cleaning/review_cleaner.py:101 | Rows whose ids are already distinct are all kept. |
| Cleaner.SurvivorsSpec | src/cleaning/review_cleaner.py:87-95 | The null filter then the blank filter is one selection of the complete, non-blank rows, in order. Each such row occurs as often as in the input, and no other row occurs. |
| Cleaner.KeptSpec | src/cleaning/review_cleaner.py:84-102 | Without a reviewId column the kept rows are the surviving rows. With one, they are the first surviving row of each id, and their ids are the distinct surviving ids in first-seen order. Either way they are complete, non-blank input rows, in input order. |
| Cleaner.NormalizeReviewSpec | src/cleaning/review_cleaner.py:105-107 | Only the review changes. A text review keeps exactly its words (same `split()`) and its non-whitespace characters, with whitespace collapsed and stripped. A non-text review becomes missing. |
| Cleaner.CleanOutput | src/cleaning/review_cleaner.py:84-107 | Same columns. One output row per kept row, in input order. Every output row has all required values (a review may only be missing if it was not text) and a non-empty normalised review with the same words as the input review. Other columns are untouched. |
| Cleaner.CleanIds | src/cleaning/review_cleaner.py:98-102 | With a reviewId column, the output ids are the distinct surviving ids in first-seen order, so they are pairwise distinct. |
| Cleaner.CleanIdsHashable | src/cleaning/review_cleaner.py:98-102 | Output ids are pairwise distinct and none is a list. |
| Cleaner.CleanKeepsTextReviews | src/cleaning/review_cleaner.py:88-107 | When every review is text or missing, every output review is text. |
| Cleaner.CleanSecondPass | src/cleaning/review_cleaner.py:88-107 | On cleaned output, each filter and the normalisation change nothing. |
| Cleaner.CleanIdempotent | src/cleaning/review_cleaner.py:88-107 | Cleaning a cleaned table returns it unchanged and drops no rows. |
| Strings.Strip | src/cleaning/review_cleaner.py:93 | `strip()` is the slice of the text between its leading and its trailing whitespace: what is cut off on each side is all whitespace, and the result is empty or starts and ends with non-whitespace. It is empty iff the text is all whitespace. |
| Strings.Words | src/nlp/keyword_theme_extractor.py:102 | The tokens of `split()` are non-empty, hold no whitespace, and concatenate to the text's non-whitespace characters. |
| Strings.SplitJoin | src/nlp/keyword_theme_extractor.py:102 | Splitting words joined by single spaces gives the words back. |
| Strings.WordsJoin | src/cleaning/review_cleaner.py:106 | Joining the tokens of `split()` with single spaces is the whitespace normalisation. |
| Strings.SqueezeSpec | src/cleaning/review_cleaner.py:106 | `re.sub(r"\s+", " ", s).strip()` is normalised (single interior spaces, none at the ends). It has the same `split()` words as the text and keeps every other character in order. It is empty iff the text was all whitespace. |
| Strings.SqueezeFixedPoint | src/cleaning/review_cleaner.py:106 | Normalised strings are exactly its fixed points. |
| Strings.SqueezeIdempotent | src/nlp/text_normalizer.py:113 | Normalising twice is normalising once. |
| Normalizer.StripUrlsIdentity | src/nlp/text_normalizer.py:109 | Text without a URL match passes unchanged. |
| Normalizer.StripUrlsShrinks | src/nlp/text_normalizer.py:109 | Text with a match gets strictly shorter. |
| Normalizer.StripUrlsChanges | src/nlp/text_normalizer.py:109 | The URL pass changes its input iff a match occurs in it. |
| Normalizer.StripUrlsPrefix | src/nlp/text_normalizer.py:109 | Up to the first match the text is copied, and the match becomes a space. |
| Normalizer.StripUrlsNoUrl | src/nlp/text_normalizer.py:109 | No match is left in the output. |
| Normalizer.BasicCleanShape | src/nlp/text_normalizer.py:107-115 | Output uses only a-z, 0-9, . , ! ? ' and single interior spaces, with none at either end. |
| Normalizer.BasicCleanFixedPoint | src/nlp/text_normalizer.py:107-115 | Clean, lowercase, URL-free text is returned unchanged. |
| Normalizer.BasicCleanTwice | src/nlp/text_normalizer.py:109-115 | A second pass changes the output iff the output contains a URL match. |
| Normalizer.BasicCleanNotIdempotent | src/nlp/text_normalizer.py:109-115 | "WWW.x" cleans to "www.x", which cleans to "": the case-sensitive URL pattern makes the pass non-idempotent. |
| Normalizer.CorrectSpelling | src/nlp/text_normalizer.py:117-127 | Input unchanged when disabled or empty. When enabled on non-empty text: the first suggestion if there is one, the input otherwise. |
| Normalizer.KeptLemmas | src/nlp/text_normalizer.py:138-140 | Every kept lemma is non-blank, and there are no more than the tokens. |
| Normalizer.KeptLemmasSelect | src/nlp/text_normalizer.py:138-140 | The kept lemmas are the lemmas of exactly the non-stopword tokens with a non-blank lemma, in token order. |
| Normalizer.Lemmatize | src/nlp/text_normalizer.py:129-140 | Input unchanged when disabled or empty. "" when no lemma survives. |
| Normalizer.NormalizeBasic | src/nlp/text_normalizer.py:151-164 | "" for non-strings and blank strings. With both stages off, `normalize` is `_basic_clean`. |
| Normalizer.NormalizeStagesGated | src/nlp/text_normalizer.py:157-162 | A disabled stage's tool has no influence on the result. |
| Normalizer.NormalizeStageOrder | src/nlp/text_normalizer.py:155-164 | `normalize` is lemmatize ∘ spell-correct ∘ basic-clean, each gated by its switch. |
| Normalizer.NormalizeCleanedAway | src/nlp/text_normalizer.py:155-164 | Text that the basic clean empties stays empty whatever the tools. |
| Normalizer.NormalizeBareUrl | src/nlp/text_normalizer.py:152-164 | A bare URL normalises to "" under every configuration. |
| ThemeMetrics.NewCalculator | src/visualization/theme_metrics.py:33-44 | TypeError for a non-DataFrame. ValueError when "bank" or "themes" is missing. Otherwise holds the frame. |
| ThemeMetrics.Spread | src/visualization/theme_metrics.py:59 | `explode` spreads a non-empty list into its items in order, an empty list into one missing value, and leaves any other cell as one value. |
| ThemeMetrics.AttachCells | src/visualization/theme_metrics.py:59 | A review explodes into one row per spread value, in order, each carrying the review's own cells. |
| ThemeMetrics.MetricsOf | src/visualization/theme_metrics.py:61-68 | One aggregate per group key, in key order. |
| ThemeMetrics.ByMentionsSorted | src/visualization/theme_metrics.py:75 | The sort yields non-increasing mentions and is a permutation. |
| ThemeMetrics.ByMentionsTotal | src/visualization/theme_metrics.py:75 | The sort preserves total mentions. |
| ThemeMetrics.ThemesSpec | src/visualization/theme_metrics.py:62 | Group keys are exactly the non-missing themes of the exploded rows. |
| ThemeMetrics.MentionsCounted | src/visualization/theme_metrics.py:64 | A group's mentions are its rows whose review is present. |
| ThemeMetrics.ExplodeCounted | src/visualization/theme_metrics.py:59-64 | The counted exploded rows are the non-missing listed themes of the rows with a review. |
| ThemeMetrics.ComputeForBankErrors | src/visualization/theme_metrics.py:46-68 | Errors, in order: TypeError for a non-string bank; ValueError naming a bank without rows; KeyError for a missing aggregated column. Otherwise it succeeds iff no theme is a list and no averaged cell is non-numeric. |
| ThemeMetrics.ReportGroups | src/visualization/theme_metrics.py:59-75 | Each row is the aggregate of its own theme, each theme appears once, every non-missing theme has a row, and mentions do not increase. |
| ThemeMetrics.ReportTotal | src/visualization/theme_metrics.py:59-68 | Total mentions equal the number of counted exploded rows. |
| ThemeMetrics.ComputeForBankGroups | src/visualization/theme_metrics.py:55-75 | `ReportGroups` for the bank's exploded rows. |
| ThemeMetrics.ComputeForBankTotal | src/visualization/theme_metrics.py:55-68 | Mentions sum to the themes listed across the bank's reviews. Missing themes, empty lists and rows without a review add nothing. |
| ThemeMetrics.ComputeForBankComposite | src/visualization/theme_metrics.py:71-73 | composite = mentions × avg_sentiment × avg_rating, missing iff either mean is. |
| ThemeMetrics.OtherBanksIgnored | src/visualization/theme_metrics.py:55 | Appending rows of other banks changes nothing. |
| ThemeMetrics.MeanWithin | src/visualization/theme_metrics.py:65-66 | A mean is missing iff there is no number. Otherwise it lies within the bounds of the numbers. |
| ThemeMetrics.ComputeForBankWithin | src/visualization/theme_metrics.py:64-66 | Every output mean lies within the bounds of its input column. |
| ThemeLoader.NewDataLoader | src/visualization/theme_data_loader.py:56-65 | TypeError iff the path is not a string. Otherwise it holds the path. |
| ThemeLoader.ParseThemes | src/visualization/theme_data_loader.py:94-128 | A list comes back unchanged; text always becomes a list (parsed list as is, other value wrapped, unparsable text wrapped); anything else comes back unchanged. Only an uncaught `literal_eval` exception propagates. |
| ThemeLoader.ParseThemesIdempotent | src/visualization/theme_data_loader.py:106-128 | Parsing its own output returns that output, whatever `literal_eval` does. |
| ThemeLoader.LoadErrors | src/visualization/theme_data_loader.py:77-92 | ValueError naming the missing required columns. Otherwise `load` fails iff `literal_eval` raises an uncaught error on some themes text. |
| ThemeLoader.LoadRows | src/visualization/theme_data_loader.py:89-92 | Every row and column is kept, in order. Only "themes" changes, to `_parse_themes` of the cell. |
| ThemeLoader.LoadFeedsMetrics | src/visualization/theme_data_loader.py:81-92 | A loaded table is well formed and accepted by the metrics calculator. |
| ThemeLoader.LoadTwice | src/visualization/theme_data_loader.py:89 | Loading a loaded table gives it back unchanged. |
| ThemeLoader.ReparseRow | src/visualization/theme_data_loader.py:107-108 | A row whose themes cell is already parsed parses to itself. |

## Left out

- The scorer adapters and model loading (src/nlp/sentiment_classifier.py:35-85) are torch, VADER and TextBlob calls. `run` takes them as one parameter `scorer`. `Sentiment.EnsembleInRange` assumes the [−1, 1] range they promise.
- `str(row[text_col])` in `run` is the parameter `render`. The concatenated result frame is modelled as the input rows paired with their records; column layout and `reset_index` are not modelled.
- Sentiment.ComputeEnsemble: carries the square of the uncertainty rather than the standard deviation, because square roots of reals are not available. `Sentiment.UncertaintySpec` states the square's properties.
- Sentiment.ParseInt: accepts ASCII digits only. Python's `int()` also accepts other Unicode decimal digits (Arabic-Indic, full-width and so on); those strings are rejected by the model.
- Sentiment.RatingOf: the model's missing value stands for both NaN and `None`. `int()` of NaN raises ValueError, which the model reports; `int(None)` raises TypeError instead. A CSV read gives NaN, so the model follows that case.
- Themes.TagCorpusSpec: on a frame without rows the model follows pandas 2.x. There, the row-wise `apply` returns a copy of the frame, and assigning it to "themes" needs exactly one column. Other pandas versions word or route this error differently, and the model keeps only its kind.
- Floating point: all scores, means and products are exact reals. IEEE rounding and NaN arithmetic are not modelled (NaN results are `None`).
- `KeywordExtractor` (scikit-learn TF-IDF) is not part of this model.
- spaCy noun chunks, spaCy token analysis and SymSpell suggestions are parameters. Model loading, dictionary loading and their FileNotFoundError/OSError are left out.
- The default stopword set `COMBINED_STOPWORDS` is not part of this model; the stopwords are a parameter.
- `str.lower()` is modelled on ASCII letters only. After `_basic_clean`'s filter only ASCII remains, so that use is exact. In `tag_review` and `extract_phrases`, non-ASCII capitals (and case mappings that change length) are not lowercased by the model.
- Themes.TagsMembers: assumes no theme of the bank is itself named "Other"; such a theme would be indistinguishable from the default.
- Error messages are modelled by kind and key content only: pandas' KeyError text, the `{type(...)}` parts and the set formatting in `load`'s message are simplified.
- Cleaner: the file-existence check and CSV reading are the parameters `found` and `contents`. Verbose printing, the drop percentage (only printed) and `export_cleaned` are left out. `.str` on a column holding no strings raises AttributeError in pandas; the model treats a non-string review as NaN throughout.
- Cleaner.CleanIdempotent: proved for tables whose reviews are text or missing, as a CSV read gives. A numeric review is turned into a missing value by the first pass and dropped by the second.
- Cleaner.CleanKeepsTextReviews: proved for tables whose reviews are text or missing, for the same reason.
- Cleaner.CleanSecondPass: proved for tables whose reviews are text or missing, for the same reason.
- ThemeMetrics: `groupby` sorts its keys, and `sort_values` uses an unstable sort. The model groups in first-seen order and sorts stably. Its contracts promise only what pandas does: non-increasing mentions, tie order unspecified.
- ThemeMetrics.ComputeForBankErrors: when several of a missing aggregated column, a list-valued theme and non-numeric averaged cells occur together, the model reports them in that order. pandas' own order among them is not modelled.
- ThemeMetrics: `mean` over an object column that pandas can coerce (numeric strings) is treated as non-numeric.
- ThemeLoader: `pd.read_csv` is the parameter `read` and `ast.literal_eval` the parameter `literalEval`. The file-existence check in the constructor (src/visualization/theme_data_loader.py:61-62) is left out.
- Database access, scraping, plotting, the UI and the orchestration scripts are not part of this model. Only the seed map of scripts/sentiment_pipeline.py is used, as example data.
