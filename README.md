# Spotlight backend: selected-id normaliser and nearest-match recommender

This project models, in Dafny, the two pieces of the Spotlight backend (`app.py`) that hold real logic:

- **`format_selected_ids`**. It normalises the performance ids a user picked. The input is either one comma-separated string or a list of fragments. Blank fragments are dropped. A fragment that is exactly `"P"` or `"F"` closes the id being built and starts a new one with `"PF"`. Every other fragment is appended verbatim, without stripping, to the id being built. A final flush emits the last id. Module `SelectedIds` (`selected_ids.dfy`) holds this part. Its loop is a method, proved equal to a left fold (`Format`). The properties of the output are lemmas about that fold.
- **The recommender loop of `/userselect`**. For each selected play, in the order the database returned them, every running play with a different `mt20id` is scored. The `(play, similarity)` list is sorted by descending similarity with Python's stable sort, and only its first element is kept. That play goes into a dictionary keyed by `mt20id`, where the first writer wins. The dictionary's values are returned in insertion order. Module `Recommender` (`recommender.dfy`) has three methods for the source's code: `ScanPool` for the inner loop that builds `similarities`, `MatchSelected` for the decode, sort and slice around it, and `UserSelect` for the outer loop and the dictionary. Each is proved equal to a specification function (`Similarities`, `BestMatch`, `Recommend`), and the lemmas state what those functions guarantee. The outer loop's catch-all is modelled by `Collect`, a fold that keeps the steps' values in order or stops at the first failure. Module `StableSort` (`stable_sort.dfy`) models `list.sort(key=…, reverse=True)` as a stable insertion sort on sequences. It proves that the sort is a permutation, that it is descending and that it is stable. It then derives the tie-break: the head of the sorted list is the earliest element with the greatest score.

Embedding decoding and cosine similarity are abstract parameters (`Numerics`):

- `decode` stands for `literal_eval` followed by `np.array`. It yields `None` when the text is not a vector.
- `cosine` stands for the value of `cosine_similarity` on two vectors of equal length.
- Vectors of different lengths make `np.dot` raise.
- Every failure aborts the whole request (the catch-all `except`), so the model returns a `Result` failure carrying the first error in execution order.

The pool and the selected rows are immutable sequences in the model, so neither is changed by a call.

Points worth knowing about what the code does:

- **Best match.** The code sorts the whole list and takes `[:1]`. `SortHeadIsFirstBest` proves this is the earliest element of greatest score.
- **Errors.** The code does not skip a malformed candidate and does not handle zero-norm vectors: any decode or shape error aborts the request, and the model does the same.
- **How many are kept.** Exactly one (`[:1]`, although the comment says "top 5").
- **Order.** The order of the selected plays is the order of the rows the database returns for the `IN (...)` query. The model takes those rows as given.

## Model

| member | source | states |
|---|---|---|
| SelectedIds.Split | app.py:102-104 | `str.split(',')`: there is at least one piece, no piece contains a comma, and joining the pieces with commas gives back the input |
| SelectedIds.SplitJoin | app.py:104 | a non-empty list of comma-free pieces is recovered by joining with commas and splitting again |
| SelectedIds.Fragments | app.py:102-107 | a string input is iterated as its comma-split pieces (at least one, none holding a comma, and they rejoin to the string, which by `SplitJoin` fixes them uniquely); a list input is iterated as it is |
| SelectedIds.FormatSelectedIds | app.py:101-124 | the loop with its final flush returns exactly `Format` of the fragments; no returned id is empty; every id after the first starts with "PF" |
| SelectedIds.RunKeepsWellFormed | app.py:110-119 | the loop invariant is preserved by any run of steps: no closed id is empty, closed ids after the first start with "PF", and once an id was closed the id being built starts with "PF" |
| SelectedIds.FormatWellFormed | app.py:113-122 | the normaliser never emits an empty id, and every id except possibly the first starts with "PF" |
| SelectedIds.RunHeld | app.py:112-119 | each run of loop steps adds exactly the rewritten text of its fragments to the text the state holds |
| SelectedIds.FormatConcat | app.py:112-122 | concatenating the output ids gives the concatenation of the non-blank fragments, with each "P"/"F" fragment replaced by "PF" and every other fragment kept verbatim |
| SelectedIds.FormatCount | app.py:114-122 | the number of output ids is the number of "P"/"F" fragments, plus one when a non-blank non-marker fragment comes before the first marker (or there is no marker and some non-blank fragment) |
| SelectedIds.FormatEmptyIffAllBlank | app.py:113-122 | the output is empty if and only if every fragment is blank (so an empty input yields `[]`) |
| SelectedIds.MarkerStartsNewId | app.py:114-117 | when the second part starts with a "P"/"F" fragment, normalising two concatenated fragment lists gives the two outputs concatenated: nothing before a marker merges with what follows |
| StableSort.SortDescending | app.py:77 | the sorted list is a permutation (same multiset) of the `similarities` list |
| StableSort.SortIsDescending | app.py:77 | after `sort(key=…, reverse=True)` the keys are in descending order |
| StableSort.SortIsStable | app.py:77 | for every key value, the elements with that key keep their original relative order |
| StableSort.Take | app.py:78 | the slice `[:n]` is a prefix of the list, of length `min(n, len)` |
| StableSort.FirstBest | app.py:77-78 | the index of the earliest element of greatest key: its key is greatest and strictly greater than every earlier key |
| StableSort.SortHeadIsFirstBest | app.py:77-78 | the head of the stably sorted list is the earliest element of greatest key (first in the original order wins ties) |
| Recommender.Score | app.py:72-73 | scoring a pool row succeeds exactly when its embedding decodes to a vector of the selected vector's length |
| Recommender.Eligible | app.py:70-71 | every position listed is a pool row whose `mt20id` differs from the selected one |
| Recommender.EligibleOrdered | app.py:69-71 | the eligible positions are listed in pool order (strictly increasing) |
| Recommender.EligibleComplete | app.py:70-71 | every pool row whose `mt20id` differs from the selected one is listed |
| Recommender.SimilaritiesSuccess | app.py:69-74 | a successful scan holds one pair per eligible pool row, in pool order, each with that row's score |
| Recommender.SimilaritiesFailure | app.py:70-74 | the scan fails exactly when some eligible row fails to decode or has the wrong length, and then with the error of the first such row |
| Recommender.ScanPool | app.py:69-74 | the inner loop returns exactly `Similarities`: the scored eligible rows, or the first decode or shape error |
| Recommender.MatchSelected | app.py:67-78 | the decode, inner loop, sort and `[:1]` return exactly `BestMatch`; a returned play is a pool row whose `mt20id` differs from the selected play's |
| Recommender.BestMatchIsFirstBest | app.py:77-78 | a kept play is the play of the earliest pair of greatest similarity in `similarities` |
| Recommender.FirstBestIsBestRow | app.py:69-78 | the earliest pair of greatest similarity comes from an eligible pool row that scores at least as high as every eligible row and higher than every earlier one |
| Recommender.BestMatchChoice | app.py:70-78 | a kept play is some pool row `i` with a different id whose score is at least every eligible row's score and strictly greater than that of every earlier eligible row (stable tie-break) |
| Recommender.BestMatchNone | app.py:69-80 | a selected play contributes nothing (no failure, no match) if and only if its embedding decodes and every pool row carries its own id |
| Recommender.CollectSuccess | app.py:66-92 | a run of steps under one catch-all that succeeds holds one value per step, each that step's value |
| Recommender.CollectFailure | app.py:66-98 | a run fails exactly when some step fails, and then with the first failing step's error |
| Recommender.MatchesSuccess | app.py:66-78 | a successful pass over the selected plays has one entry per selected play, each that play's best match |
| Recommender.MatchesFailure | app.py:66-98 | the pass fails exactly when some selected play's matching fails, and then with the first failure in selection order |
| Recommender.UserSelect | app.py:64-92 | the nested loops with the insertion-ordered dictionary return exactly `Recommend`; on success the output has at most one entry per selected play and pairwise distinct ids |
| Recommender.HoldsInsert | app.py:82-89 | inserting an absent key into the dictionary appends its entry to the values in insertion order and keeps keys and values consistent |
| Recommender.DedupLength | app.py:78-89 | no more entries than matches offered |
| Recommender.DedupDistinct | app.py:82-83 | no `mt20id` appears twice in the result |
| Recommender.DedupComplete | app.py:80-89 | the id of every offered match appears in the result |
| Recommender.DedupFirstWriter | app.py:82-89 | each entry is the projection `{mt20id, prfnm, sty, poster, relateurl1}` of the first offered match with its id (first writer wins) |
| Recommender.DedupOrder | app.py:82-92 | entries appear in the order in which their ids were first matched |
| Recommender.PicksFromPool | app.py:70-82 | every play kept for a selected play is a row of the running pool |
| Recommender.RecommendProperties | app.py:64-92 | on success the route's list is the de-duplication of the per-selection matches: distinct ids, at most one entry per selected play, each entry the projection of the first selected play's match with that id, every match represented, first-match order, every entry the projection of a pool row |
| Recommender.RecommendFailure | app.py:66-98 | the route fails exactly when some selected play's matching fails, and then with the first such failure |

## Left out

- Flask routes and request handling (`main`, `get_data`, the `plays` argument check and split, `getinfo`, `jsonify`, HTTP status codes): transport glue with no logic of its own.
- MySQL access (connections, the two queries, commit, rollback, closing): I/O. The selected rows and the pool rows are taken as given sequences, in the order the queries return them.
- `get_kakao_user_info`: a call to an external web API.
- `cosine_similarity` numerics: floating-point arithmetic is abstracted to a total function to `real`. A zero-norm vector gives NaN in the source, and NaN makes the sort ill-ordered. The model assumes a total order on scores and does not capture that case.
- `literal_eval` / `np.array` decoding: an abstract `decode` that either gives a vector or fails. Which texts parse, and multi-dimensional arrays, are not modelled.
- The in-place `list.sort` and the list built by `append`: both are modelled as values assigned to a local sequence. No other reference to the list exists, so there is no aliasing to capture.
- `format_selected_ids` on a list holding non-string JSON values: the model takes a list of strings. In the source such a value would raise at `strip`.
