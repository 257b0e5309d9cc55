# h-frac calculator: a verified model

The h-frac calculator looks up a researcher in the OpenAlex author search and
then computes their fractional h-index (h-frac). Each work's citation count is
divided by its number of authors. The resulting values are ranked in
descending order. h-frac is the largest rank k whose value is at least k.
The script also reports "Analyzed Papers", the number of works fetched.

The model has two modules:

- `Metric` (`metric.dfy`) covers the "Calculate h-frac" action, which works
  step by step. A work becomes `Work(citedByCount, authorCount)`, where
  `authorCount` is the length of its authorship list (0 when the list is
  missing). `CollectFractional` is the filter-and-append loop.
  `SortDescending` is the in-place descending sort on an array.
  `ThresholdScan` is the rank loop with its early `break`. `ComputeHFrac`
  runs the three in sequence. Their contracts are tied to order-independent
  reference definitions: `Ranked` (the filter), `CountAtLeast` and `HFrac`
  (the largest k such that at least k values are >= k). Lemmas then prove the
  properties of these definitions. Fractional values are exact `real`s.
- `AuthorSearch` (`author_search.dfy`) covers the search step. It is a pure
  function of the request status and the result list. On failure it shows
  nothing. An empty list gives the "No authors found." message. Otherwise it
  builds the label-to-id map offered for selection, from the first five
  results, and lists its labels in insertion order for the selection box. A
  label is "name (institution)", and the suffix falls back to
  "No Affiliation".

The code differs from a plain description of the tool in three ways, and the
model follows the code. There is no identifier-shaped query and no direct
lookup path: every query goes to the name search. The institution comes only
from `last_known_institution`, never from an affiliations list. A failed
author search shows no message (`SearchOutcome.NoResponse`).

## Model

| member | source | states |
|---|---|---|
| Metric.FractionalValue | hfrac.py:47 | a work's value lies between 0 and its citation count, and times the author count it gives back the citation count |
| Metric.Ranked | hfrac.py:40-48 | the ranking list is never longer than the list of works fetched |
| Metric.RankedSound | hfrac.py:45-48 | every ranking value is the fractional value of a fetched work that has at least one author |
| Metric.RankedComplete | hfrac.py:42-48 | every fetched work with at least one author contributes its value to the ranking list |
| Metric.ZeroAuthorWorkSkipped | hfrac.py:45-46 | inserting a work with no authors anywhere in the fetched list leaves the ranking list unchanged |
| Metric.RankedFull | hfrac.py:42-48 | the ranking list is as long as the fetched list exactly when every work has authors |
| Metric.RankedAppend | hfrac.py:42-48 | filtering a concatenation of two fetched lists gives the concatenation of their ranking lists |
| Metric.CollectFractional | hfrac.py:40-48 | the append loop produces exactly the ranking list of the works, in fetch order |
| Metric.SortDescending | hfrac.py:51 | after the sort the array is non-increasing and a permutation of its old contents |
| Metric.InsertDescending | hfrac.py:51 | one insertion step leaves a[..i+1] descending and a permutation of its old contents, and leaves a[i+1..] unchanged |
| Metric.ThresholdScan | hfrac.py:54-59 | the result is at most the list length, every rank up to it has a value at least its rank, and the next rank, if there is one, falls short |
| Metric.HFrac | hfrac.py:54-59 | reference h-frac: at least h values reach h, fewer than k values reach any larger k, and h is at most the list length |
| Metric.CountPermutation | hfrac.py:51 | the number of values reaching a threshold depends only on the multiset of values |
| Metric.HFracPermutation | hfrac.py:51 | reordering the values, as the sort does, leaves h-frac unchanged |
| Metric.ScanIsHFrac | hfrac.py:54-59 | on a descending list, the value the rank loop stops at is the reference h-frac |
| Metric.FullScan | hfrac.py:54-59 | the loop without `break` ends at the last rank whose value reaches it: that rank qualifies and no later rank does |
| Metric.BreakMatchesFullScan | hfrac.py:55-59 | on a descending list, the loop with `break` and the loop without it end at the same rank |
| Metric.BreakNeedsSortedInput | hfrac.py:51-59 | on the unsorted list [0, 5] the loop with `break` gives 0 while the full scan gives 2, so the sort is needed |
| Metric.HFracMonotone | hfrac.py:54-59 | adding values before or after a list never lowers h-frac |
| Metric.MoreWorksNeverLower | hfrac.py:40-59 | fetching more works never lowers h-frac |
| Metric.HIndex | hfrac.py:54-59 | reference ordinary h-index on raw citation counts: at least h counts reach h, and fewer than k reach any larger k |
| Metric.SingleAuthorIsHIndex | hfrac.py:45-59 | when every work has exactly one author, h-frac equals the ordinary h-index of the citation counts |
| Metric.Examples | hfrac.py:40-59 | citations 10, 8, 5 with one author each give 3; one two-author work with 10 citations gives 1; no works give 0; one work without authors gives 0 |
| Metric.ComputeHFrac | hfrac.py:40-62 | h-frac is the reference h-frac of the ranking list and at most its length, which is at most the number fetched; "Analyzed Papers" is the number of works fetched, skipped ones included |
| Metric.CalculateHFrac | hfrac.py:36-64 | a non-200 works response yields the failure message and no result; otherwise the result is h-frac of the ranking list with the fetched count |
| AuthorSearch.Top | hfrac.py:24 | exactly min(5, number of results) results are kept, in the service's order |
| AuthorSearch.InstitutionName | hfrac.py:24 | an institution's name is printed as is; a missing name gives "No Affiliation" and a null name prints as "None" |
| AuthorSearch.AffiliationAsWritten | hfrac.py:24 | the suffix expression as written raises exactly when `last_known_institution` is null; a missing institution gives "No Affiliation" |
| AuthorSearch.Label | hfrac.py:24 | a label is the name, " (", the affiliation and ")": three characters longer than name and affiliation together |
| AuthorSearch.LabelsSeparateAffiliations | hfrac.py:24 | two results with the same name but different affiliations get different labels |
| AuthorSearch.LabelAsWritten | hfrac.py:24 | the label expression raises exactly when `last_known_institution` is null; otherwise it is the corrected label |
| AuthorSearch.Affiliation | hfrac.py:24 | a missing or null institution, or an institution without a name, gives "No Affiliation"; a named institution gives its name; it agrees with the expression as written wherever that does not raise |
| AuthorSearch.DictOf | hfrac.py:24 | the dict's keys are exactly the labels of the pairs, and it has no more entries than pairs |
| AuthorSearch.KeysInOrder | hfrac.py:24-25 | the dict's keys in insertion order: each key once, exactly the dict's keys, the first pair's label first |
| AuthorSearch.DictOfLastWins | hfrac.py:24 | a label maps to the id of the last pair that carries it |
| AuthorSearch.CandidateOptions | hfrac.py:18-24 | at most five options and at most one per result; a non-empty result list gives at least one option |
| AuthorSearch.SelectionLabels | hfrac.py:24-25 | the selection box lists each offered label exactly once, and the top result's label comes first |
| AuthorSearch.DefaultSelection | hfrac.py:24-26 | the preselected label selects the id of the last of the first five results sharing the top result's label |
| AuthorSearch.CandidateOptionsFromTopFive | hfrac.py:24 | a label is offered exactly when one of the first five results carries it |
| AuthorSearch.CandidateOptionsLaterWins | hfrac.py:24 | when first-five results share a label, the later result's id is the one offered |
| AuthorSearch.EntriesAsWritten | hfrac.py:24 | the pairs as written, when the comprehension does not raise, are one per result and carry the results' ids in order |
| AuthorSearch.CandidateOptionsAsWritten | hfrac.py:24 | the map as written, when it does not raise, has at most five entries and at most one per result; it can only raise on a non-empty list |
| AuthorSearch.EntriesAsWrittenAgrees | hfrac.py:24 | the pairs as written are missing exactly when a result has a null institution, and otherwise equal the corrected pairs |
| AuthorSearch.CandidateOptionsAsWrittenAgrees | hfrac.py:24 | the map as written fails exactly when one of the first five results has a null institution, and otherwise equals the corrected map |
| AuthorSearch.NullInstitutionRaises | hfrac.py:24 | one result with a null institution makes the script raise, while the corrected map offers it with "No Affiliation" |
| AuthorSearch.SearchAuthors | hfrac.py:16-25 | a non-200 response shows nothing; an empty result list gives "No authors found."; otherwise the corrected map with one to five options, listed in insertion order with the top result's label first |

## Findings

| source | as written | input that shows it | evidently intended | confidence | as-written member | corrected member |
|---|---|---|---|---|---|---|
| hfrac.py:24 | `r.get('last_known_institution', {})` returns `None` when the key is present with a JSON null, and `.get('display_name', ...)` on `None` raises AttributeError, so the whole search step fails | one search result whose `last_known_institution` is `null` (`AuthorSearch.NullInstitutionRaises`) | a null institution is treated like a missing one and gets "No Affiliation" | not executed; high | AuthorSearch.CandidateOptionsAsWritten | AuthorSearch.CandidateOptions |

## Left out

- Streamlit presentation (title, text input, selection box, button, spinner, success, metric and error displays) is not modelled. The labels' order and the preselected entry are modelled (`SelectionLabels`, `DefaultSelection`); a choice the user makes afterwards is not.
- HTTP requests, URL building and JSON decoding are not modelled. The request status is an integer parameter. `results` is passed in as a sequence, and a missing `results` key is the empty sequence.
- The 200-works single-page cap is a property of the remote query. The works sequence is taken as given.
- IEEE float division is not modelled. Values are exact rationals (`real`). When `citations / authors` lies within rounding distance of an integer rank, the float comparison may differ from the exact one.
- A missing `cited_by_count`, author `display_name` or `id` raises KeyError in the script. The model assumes these fields are present (`nat` and `string` fields).
- AuthorSearch.DictOf: a Dafny `map` has no key order. The insertion order that a Python dict keeps is modelled separately by `KeysInOrder`.
- Metric.Work: `authorCount` is a `nat`, so a work whose `authorships` key is present with a JSON null is not modelled. For such a work `work.get('authorships', [])` returns `None`, and `len(None)` raises TypeError, which aborts the whole calculation.
- A null author `display_name` or `id` is not modelled. A null institution `display_name` is modelled: it prints as "None", as Python's f-string does.
- The sort is modelled as an insertion sort rather than Python's TimSort. Both produce the unique descending arrangement of the same values, so results agree. Stability is not observable on equal `real` values.
- The unused `pandas` import has no behaviour to model.
