# Shopify redirect matching tool: a verified model of its matching engine

The tool takes two CSV files. One lists the German product URLs that
Google Search Console reports as broken. The other is the shop's
catalogue, holding a product title and a URL slug for each product. The
tool turns every broken URL into a redirect to a catalogue slug:

1. It takes the slug fragment after `/de/products/` from each URL, turns
   its hyphens into spaces and sends it to a translator. A row whose
   translation raises gets the marker `TRANSLATION_FAILED` as its guess.
2. It normalises the catalogue titles and builds the title and slug maps.
   The keys are the normalised titles. The last row wins a key's values,
   and the key keeps the position where it first appeared.
3. It matches every guess in two tiers. The first tier is token-set scoring
   with a threshold of 82. The second is partial-ratio scoring, which needs
   90. A hit with a truthy slug becomes an automatic match. Every other row
   waits for manual review.
4. The manual review shows the unmatched rows one at a time. Each row gets
   the three best titles as options "title → slug (score: s)" plus a skip
   option. "Save & Next" records the slug parsed back out of the chosen
   option and moves on.
5. Export puts the automatic matches first and the manual decisions after
   them, then drops repeated source URLs. The first row for a URL is kept,
   so an automatic match beats a manual decision.

The Dafny modules follow these steps:

| module | file | contents |
|---|---|---|
| `Tables` | `tables.dfy` | Cells, which are strings or NaN. Also the translated rows and the redirect records. |
| `Normalizer` | `normalizer.dfy` | `normalize`. |
| `Catalog` | `catalog.dfy` | The title and slug maps. |
| `Matcher` | `matcher.dfy` | `fuzzy_match`, and the top-k selection of `process.extract`. |
| `Translate` | `translate.dfy` | The translation loop. |
| `Pipeline` | `pipeline.dfy` | The matching loop. |
| `Review` | `review.dfy` | The manual review cursor. |
| `Merger` | `merger.dfy` | The export merge. |
| `Wrappers` | `wrappers.dfy` | `Option` and `Result`. |

Outside calls are parameters of the model:

- The translator is any function from a row position and a fragment to
  `Translated(text)` or `Raised`. Each row's call is separate, so the same
  fragment may translate on one row and raise on another.
- The two rapidfuzz scorers are any functions to a score in [0, 100].
- The rendering of a score inside an option is any function from a score
  to a string.

The properties proved hold for every choice of these functions.

With no titles, `process.extractOne` returns None, and unpacking it at
line 16 raises TypeError. The model follows the code:

- `Matcher.FuzzyMatch` returns `EmptyCatalog`.
- `Pipeline.MatchRows` fails as soon as any row's guess is not the marker.

## Model

| member | source | states |
|---|---|---|
| Tables.Column | app.py:81 | A row lookup succeeds exactly for the four columns the translated table has: "Redirect from", "slug", "clean_slug" and "translated_guess". |
| Normalizer.LowerChar | app.py:10 | `str.lower` maps A-Z to a-z, the Kelvin sign to "k" and U+0130 to "i" plus a combining dot. It leaves every other character the filter admits unchanged. |
| Normalizer.KeepKept | app.py:11 | After the character filter, only ASCII lower-case letters, digits and whitespace remain. |
| Normalizer.KeepConcat | app.py:11 | The filter works character by character: filtering a concatenation concatenates the filtered parts. |
| Normalizer.KeepChar | app.py:11 | A single character survives the filter exactly when it is a lower-case ASCII letter, a digit or whitespace. |
| Normalizer.NonSpaceConcat | app.py:12 | Dropping whitespace from a concatenation concatenates the two parts with whitespace dropped. |
| Normalizer.DropSpacesText | app.py:12 | Removing leading whitespace removes whitespace only. |
| Normalizer.DropTrailingSpacesText | app.py:12 | Removing trailing whitespace removes whitespace only. |
| Normalizer.CollapseRun | app.py:12 | A whitespace run followed by text or by the end collapses to exactly one space, never to none. |
| Normalizer.CollapseConcat | app.py:12 | Collapsing works run by run: a string cut right after a non-whitespace character collapses as its two parts do. |
| Normalizer.CollapseText | app.py:12 | `re.sub(r'\s+', ' ', s)` keeps every non-whitespace character of `s`, in order. |
| Normalizer.StripText | app.py:12 | `strip()` keeps every non-whitespace character, in order. |
| Normalizer.NormalizeText | app.py:8-12 | `normalize` keeps every letter and digit of the lower-cased, filtered text, in order. Only whitespace changes. |
| Normalizer.NormalizeExample | app.py:8-12 | `normalize(" A-b ")` is "ab". |
| Normalizer.NormalizeSpaceExample | app.py:8-12 | `normalize("A  b")` is "a b": the two words keep one space between them. |
| Normalizer.DropSpacesShape | app.py:12 | The leading whitespace is removed exactly. The result is a suffix, and every character dropped is whitespace. |
| Normalizer.DropTrailingSpacesShape | app.py:12 | The trailing whitespace is removed exactly. The result is a prefix, and every character dropped is whitespace. |
| Normalizer.StripShape | app.py:12 | The stripped string is empty, or starts and ends with a non-whitespace character. |
| Normalizer.CollapseShape | app.py:12 | Collapsing whitespace runs never leaves two spaces in a row. It maps the empty string, and only it, to the empty string, and keeps the first character apart from turning whitespace into a space. |
| Normalizer.CollapsedCons | app.py:12 | Putting a normal character in front of a collapsed string keeps it collapsed, unless a space meets a space. |
| Normalizer.StripCollapsed | app.py:12 | Stripping a collapsed string gives a normal string. |
| Normalizer.NormalizeIsNormal | app.py:8-12 | Every result of `normalize` has this shape: lower-case letters, digits and single inner spaces, with no space at either end. A non-string cell gives "". |
| Normalizer.LowerOfNormal | app.py:10 | Lower-casing leaves a string of normal characters unchanged. |
| Normalizer.KeepOfNormal | app.py:11 | The filter leaves a string of normal characters unchanged. |
| Normalizer.CollapseOfCollapsed | app.py:12 | Collapsing leaves a collapsed string unchanged. |
| Normalizer.StripOfNormal | app.py:12 | Stripping leaves a normal string unchanged. |
| Normalizer.NormalizeIdempotent | app.py:8-12 | Normalising a normalised title gives it back. |
| Normalizer.NormalIffFixedPoint | app.py:8-12 | A string is a fixed point of `normalize` if and only if it has the normal shape. |
| Catalog.Keys | app.py:71 | The key column holds the normalised title of each product row, in row order. |
| Catalog.InsertValid | app.py:72-73 | Assigning a key in both dictionaries keeps their key sets equal and the key list free of repeats, adding a new key at the end. |
| Catalog.ZipValid | app.py:72-73 | `dict(zip(keys, rows))` gives two maps with the same keys, each listed once. |
| Catalog.ZipKeys | app.py:72-73 | A string is a key of the zipped maps if and only if it is one of the keys zipped in. |
| Catalog.ZipLastWins | app.py:72-73 | For every key, the zipped maps hold the title and slug of the last row zipped with that key. |
| Catalog.ZipOrder | app.py:72-74 | The key list is in order of first insertion. |
| Catalog.Build | app.py:71-74 | The maps built have the same key set, and `titles` lists every key exactly once. |
| Catalog.BuildKeys | app.py:72-74 | A string is a key of the maps if and only if it is the normalised title of some row. |
| Catalog.BuildLastWins | app.py:71-73 | For every key, both maps hold the title and slug of the last row whose title normalises to that key. |
| Catalog.BuildOrder | app.py:71-74 | `titles` lists keys in order of the first row whose title normalises to each. |
| Matcher.BestIndex | app.py:16 | `extractOne` picks the first position with the highest score. |
| Matcher.FirstMaxUnique | app.py:16 | That position is unique. |
| Matcher.FuzzyMatch | app.py:14-22 | An empty catalogue raises. The token-set tier answers exactly when some key reaches the threshold. The partial tier answers exactly when the token-set tier fails and some key reaches 90. A match is the first best key's title, slug and score, tagged with its tier, and its score meets its tier's bar. |
| Matcher.PartialNotConsulted | app.py:17-19 | When the first tier succeeds, the partial scorer is never consulted. |
| Matcher.Range | app.py:122 | The candidate pool is every catalogue position, each once. |
| Matcher.BestOf | app.py:122 | The best candidate beats every other candidate: higher score first, and the earlier position on a tie. |
| Matcher.Remove | app.py:122 | Removing a candidate keeps the others and nothing else. |
| Matcher.Select | app.py:122 | The `k` best candidates are distinct and drawn from the pool, in ranking order. Every candidate left out ranks below every candidate kept. |
| Matcher.TopK | app.py:122 | `process.extract(limit=k)` returns min(k, number of titles) distinct positions, best first, and no position left out beats a position kept. |
| Translate.Find | app.py:53 | The search finds the first occurrence of the product path, or reports that there is none. |
| Translate.TakeLine | app.py:53 | `.*` stops at the first line break or at the end of the URL. |
| Translate.ExtractFragment | app.py:53 | The fragment is None exactly when the URL lacks `/de/products/`. Otherwise it is the text after the first occurrence, up to a line break or the end. |
| Translate.CleanFragment | app.py:54 | Every hyphen becomes a space, and every other character stays. |
| Translate.GuessOf | app.py:57-60 | A raising translator call gives the marker `TRANSLATION_FAILED`. Otherwise the guess is the translated text. |
| Translate.TranslateRows | app.py:55-62 | There is one row per URL, in order, each built by its own translator call. Every raised call leaves the marker. |
| Pipeline.Classify | app.py:80-95 | A failed translation is unmatched. A crash happens exactly on a non-marker guess against an empty catalogue. Every automatic match carries the row's source URL and a truthy slug, and is what `fuzzy_match` found. Conversely, a non-marker row for which `fuzzy_match` finds a truthy slug becomes that automatic match, and a row with no match or a falsy slug is unmatched. |
| Pipeline.OutcomeAt | app.py:79-95 | The outcome of each row is the classification of that row alone. |
| Pipeline.MatchesInOrder | app.py:86-93 | `matches` lists the automatic matches in row order. |
| Pipeline.UnmatchedInOrder | app.py:82-95 | `unmatched` lists the other rows in row order. |
| Pipeline.PartitionSizes | app.py:76-95 | Without a crash, `matches` and `unmatched` together have as many entries as there are rows. |
| Pipeline.Partitioned | app.py:76-95 | Each row is in exactly one of the two lists, and every failed translation is in `unmatched`. |
| Pipeline.FailedTranslationUnmatched | app.py:57-60 | A row whose translator call raised always ends unmatched. |
| Pipeline.MatchRows | app.py:76-100 | The loop fails exactly when the catalogue is empty and some guess is not the marker. Otherwise it returns the matched and unmatched lists that the per-row classification defines. |
| Review.AfterLast | app.py:134 | `split("→")[-1]` is the longest suffix free of the separator. |
| Review.BeforeFirst | app.py:134 | `split("(")[0]` is the longest prefix free of the separator. |
| Review.AfterLastOfJoin | app.py:134 | Splitting on the separator and taking the last piece gives what follows the last separator. |
| Review.BeforeFirstOfJoin | app.py:134 | Splitting on the separator and taking the first piece gives what precedes the first separator. |
| Review.StripPadded | app.py:134 | `strip()` removes the single spaces the option adds around a trimmed slug. |
| Review.ParseBuildRoundTrip | app.py:128-134 | Parsing an option gives back the slug it shows, for any title. This holds when the slug has no arrow, no parenthesis and no surrounding whitespace, and the score text has no arrow. |
| Review.OptionIsNotSkip | app.py:128-133 | No option equals the skip label, so the string test at line 133 tells a pick from a skip. |
| Review.Candidates | app.py:122 | A row is offered min(3, number of titles) catalogue positions. |
| Review.BuildOptions | app.py:124-128 | The loop builds one option per candidate, in ranking order, each showing the candidate's title, slug and rendered score. |
| Review.ReviewSourceAsWritten | app.py:119 | As written, the lookup of `redirect_from` fails for every row. |
| Review.ReviewSource | app.py:119 | Corrected, the source is the row's "Redirect from" value. |
| Review.Decision | app.py:132-138 | "Save & Next" records at most one redirect, carrying the row's source URL. It records one exactly when a candidate was picked rather than skip. |
| Review.DecisionTargetsCandidate | app.py:132-138 | Picking a candidate whose slug survives the round trip redirects the source to that candidate's slug. |
| Review.Decide | app.py:117-138 | The review of one row records exactly `Decision` for the chosen option. |
| Review.ReviewSession.constructor | app.py:111-112 | A review starts at the first queued row with no results. |
| Review.ReviewSession.Record | app.py:135-139 | A decision is appended and the cursor moves past the row. The session invariant is kept: the cursor stays within the queue, and results stay in queue order, at most one per reviewed row, each for its row's URL. |
| Review.ReviewSession.SaveAndNext | app.py:114-141 | While rows remain, "Save & Next" appends the decision for the current row and advances the cursor by one. Once the queue is done, nothing changes. The invariant is kept. |
| Merger.SourceSetMembers | app.py:151 | The set of source URLs holds exactly the "Redirect from" values of the rows. |
| Merger.DedupUnique | app.py:151 | `drop_duplicates` leaves each source URL once, and loses none. |
| Merger.DedupSubsequence | app.py:151 | The rows kept are the rows at the kept positions. Those positions increase, so the rows keep their original order. |
| Merger.LastKeptIffFirst | app.py:151 | The last row is dropped exactly when an earlier row has its source URL. |
| Merger.KeptIffFirst | app.py:151 | A row is kept if and only if no earlier row has the same source URL. |
| Merger.FirstIsKept | app.py:151 | The first row for each source URL survives `drop_duplicates`. |
| Merger.FirstWins | app.py:151 | That first row is the only row left for its URL. |
| Merger.SourceSetConcat | app.py:150 | The sources of the concatenation are the union of both tables' sources. |
| Merger.Pairs | app.py:150 | The two exported columns of each automatic match, in order. |
| Merger.Merge | app.py:150-151 | The export lists each source URL of either table exactly once. |
| Merger.MergedRowsAreFirsts | app.py:150-151 | Every exported row is the first row for its URL in the automatic-then-manual order. |
| Merger.AutomaticWins | app.py:150-151 | The first automatic match for a URL is exported, and the URL's exported target is that match's. |
| Merger.ManualFillsGaps | app.py:150-151 | A URL with no automatic match is exported with its first manual decision. |
| Merger.MergeAsWritten | app.py:150 | As written, the export fails exactly when there is no automatic match. Otherwise it is the merge. |
| Merger.ManualOnlyExportFails | app.py:148-150 | With no automatic match and at least one manual decision, the export as written fails, although the merge would not be empty. |
| Merger.MergeExample | app.py:150-151 | "A" matched automatically to "X" and manually to "Y" is exported once, to "X". |

## Left out

- The Streamlit interface is not modelled. That covers uploads, buttons,
  headers, messages, `st.experimental_rerun` and the download button.
  Session state is kept only where the review step uses it: `manual_index`
  and `manual_results`.
- CSV reading and writing (`pd.read_csv`, `to_csv`) are not modelled. A
  cell is either a string or NaN.
- Numeric cells are not modelled. pandas can read a numeric title or slug
  column as numbers, and `normalize` maps those to "" just as it maps NaN,
  but they would render differently.
- A missing "Redirect from" cell is not modelled. Source URLs are strings.
- Columns of the broken-links file beyond "Redirect from" are not
  modelled.
- The googletrans network call is a parameter. Any exception it raises is
  one `Raised` outcome.
- The rapidfuzz scorers are parameters. Their string algorithms and
  floating-point rounding are not modelled: scores are exact reals in
  [0, 100].
- The rendering of a float score in an option is a parameter.
- `str.lower` is modelled for ASCII letters, the Kelvin sign and U+0130.
  These are the only characters whose lower case contains an ASCII letter.
  Every other character is deleted by the filter whatever its lower case
  is.
- The review session takes its queue as fixed: a rerun is assumed to
  derive the same unmatched table from the same stored translation. In the
  source the queue can change under the cursor. Pressing "Translate Now"
  again replaces the stored translation, and a new product file changes
  `titles`, while `manual_index` and `manual_results` are never reset. The
  model does not capture a cursor and results that carry over onto a
  changed queue.
- Review.ReviewSession.SaveAndNext: the radio choice is modelled as a
  position in `options + [skip]`. Two options with the same text are not
  told apart, and neither are they in the source.
- Review.Candidates: its own contract states only the number and range of
  the positions. Their ranking is the contract of Matcher.TopK, which it
  returns.
- A slug that contains an arrow or a parenthesis, or has surrounding
  whitespace, does not come back unchanged from the option text. The
  round-trip lemma states this as its assumption.
- Concrete normalisation examples, such as strings with umlauts, are not
  proved.

## Findings

| source | as written | input that shows it | evidently intended | confidence | as-written member | corrected member |
|---|---|---|---|---|---|---|
| app.py:119 | `row['redirect_from']` reads a column the unmatched rows do not have. Their column is "Redirect from", so the manual review raises KeyError for the first queued row. | Any unmatched row, for example a URL `/de/products/x` whose translation failed. | `row['Redirect from']` | not executed | Review.ReviewSourceAsWritten | Review.ReviewSource |
| app.py:150 | When nothing matched automatically, `final` is `pd.DataFrame([])`, which has no columns. Selecting `[["Redirect from", "Redirect to"]]` then raises KeyError, and the manual decisions are never exported. | No automatic match and one manual decision `A → Y`. | Export the manual decisions alone when `final` is empty. | not executed | Merger.MergeAsWritten | Merger.Merge |
