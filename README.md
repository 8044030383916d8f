# Citation trend analysis of a Scopus export, modelled in Dafny

`TrendAnalysis.py` is a batch script. It loads a Scopus export (`FullScopusSource.csv`) and
a thesaurus (`thesaurus.xlsx`), then works on the table in five steps:

1. **Cleaning.** Drop every row whose `Cited by`, `Title` or `Year` is missing.
2. **Normalisation.** Apply each thesaurus row (`Label`, `Replace by`) to the whole table, in
   spreadsheet order. Each row replaces every cell equal to the label.
3. **Ranking.** Sort by `Cited by`, descending, to get `most_cited_articles`.
4. **Concept filter.** Keep the ranked rows that mention `usability`, `utility` or
   `user-centric`, in any letter case, to get `filtered_articles`.
5. **Yearly trend.** Group the normalised table by `Year` and sum `Cited by` per year, to get
   `citation_trends`.

The model follows the same steps, one module per step:

| file | module | what it holds |
|---|---|---|
| `records.dfy` | `Records` | a row (`Record`) with five optional cells; `TextColumn` names the text columns |
| `cleaning.dfy` | `Cleaning` | `Complete`, `Cleaned` and their lemmas |
| `thesaurus.dfy` | `Thesaurus` | `Rule`, one rule over the table (`ReplaceInTable`), the whole thesaurus (`ApplyRules`), lemmas on order and idempotence |
| `scopus_table.dfy` | `ScopusData` | class `ScopusTable`: the data frame that the script changes in place (`dropna(inplace=True)`, the `replace(inplace=True)` loop) |
| `ranking.dfy` | `Ranking` | `RankByCitations` (an insertion sort) and what any ranking must satisfy |
| `concept_filter.dfy` | `ConceptFilter` | substring search, the case-insensitive concept mask, `FilteredArticles` |
| `citation_trends.dfy` | `CitationTrends` | `GroupByYear` and its characterisation |
| `trend_analysis.dfy` | `TrendAnalysis` | `Analyse`: the script from top to bottom |
| `sequences.dfy`, `wrappers.dfy` | `Sequences`, `Wrappers` | order-preserving filtering, subsequences, `Option` |

A missing cell (`NaN`) is `None`. A blank thesaurus cell is NaN too, so a rule's label and its
replacement are both optional. pandas `replace` matches NaN against NaN and writes NaN when
the replacement is NaN, and the model does the same. The cleaning and thesaurus steps change
`scopus_df` in place, so they are methods of `ScopusTable`. Each method is proved against a
specification function (`Cleaned`, `ApplyRules`). The later steps are expressions in the
script and are functions here.

How this version of the script behaves, as the model states it:

- Lines 28, 29 and 30 each reassign `filtered_articles` from `most_cited_articles`. Only the
  `Author Keywords` mask decides the result. See "## Findings".
- The search pattern is a flat list of three words. It has no synonym groups, so "user-centered"
  does not match.
- `sort_values` uses pandas' default sort, which is not stable. The model fixes one order for
  ties. It proves only what holds for every valid ranking: same rows, descending counts, and
  the same count at each position (`RankingsAgreeOnCounts`).
- Blank thesaurus rows are not skipped. They are passed to `replace` like any other row.
- A rule whose replacement is blank can erase a title after cleaning has run
  (`BlankReplacementRemovesTitle`). So `Title` may be missing again in the ranked table.
  `Cited by` and `Year` cannot be erased this way.
- Running the thesaurus twice can differ from running it once. For three distinct values,
  [B -> C, A -> B] maps a cell equal to A to B on the first run and to C on the second
  (`ChainedThesaurusNotIdempotent`). A chain in forward order, [A -> B, B -> C], is a no-op
  the second time (`ForwardChainIdempotent`). Running twice is the same as once whenever no
  replacement is a label (`UnchainedThesaurusIdempotent`).

## Model

| member | source | states |
|---|---|---|
| `Cleaning.CleanedSpec` | TrendAnalysis.py:13 | every kept row has `Cited by`, `Title` and `Year`; a complete row keeps all its copies, an incomplete one keeps none; the result is an order-preserving subsequence of the input |
| `ScopusData.ScopusTable.DropIncomplete` | TrendAnalysis.py:13 | the in-place drop leaves the table equal to `Cleaned` of the old table (loop over the rows with a prefix invariant) |
| `Thesaurus.ReplaceInTable` | TrendAnalysis.py:17 | one rule keeps the row count and the numeric columns; a cell equal to the label becomes the replacement; every other cell stays as it was (whole-value match) |
| `ScopusData.ScopusTable.Replace` | TrendAnalysis.py:17 | the in-place `replace` leaves the table equal to `ReplaceInTable` of the old table |
| `ScopusData.ScopusTable.ApplyThesaurus` | TrendAnalysis.py:16-17 | the loop over the thesaurus rows leaves `ApplyRules(old, rules)`; the row count, years and citation counts are unchanged; each text cell is the thesaurus applied to the old cell |
| `Thesaurus.ApplyRulesCellwise` | TrendAnalysis.py:16-17 | applying the thesaurus to the table is applying it to each text cell on its own, in rule order; the numeric columns stay as they were |
| `Thesaurus.ChainedRules` | TrendAnalysis.py:16-17 | with rules [A -> B, B -> C], a cell equal to A ends as C: a later rule acts on an earlier rule's output |
| `Thesaurus.ReorderedRules` | TrendAnalysis.py:16-17 | the same rules in the order [B -> C, A -> B] leave that cell as B, and the two orders give different cells: rule order matters |
| `Thesaurus.ReplaceIdempotent` | TrendAnalysis.py:17 | applying one rule a second time changes nothing |
| `Thesaurus.UnchainedThesaurusIdempotent` | TrendAnalysis.py:16-17 | when no replacement is a label of any rule, running the whole thesaurus a second time changes nothing |
| `Thesaurus.ChainedThesaurusNotIdempotent` | TrendAnalysis.py:16-17 | for three distinct values, the thesaurus [B -> C, A -> B] run twice differs from run once |
| `Thesaurus.ForwardChainIdempotent` | TrendAnalysis.py:16-17 | for any values, the thesaurus [A -> B, B -> C] run twice equals run once, although B is both a label and a replacement |
| `Thesaurus.BlankReplacementRemovesTitle` | TrendAnalysis.py:13-17 | every cleaned row has a title, yet a rule whose label is that title and whose replacement is blank makes it missing again: the thesaurus can undo what cleaning guarantees |
| `Ranking.RankByCitations` | TrendAnalysis.py:21 | the ranked table is a permutation of its input, and its citation counts never increase; a missing count sorts last |
| `Ranking.RankingsAgreeOnCounts` | TrendAnalysis.py:21 | any two descending orderings of the same rows have the same citation count at every position, so tie order is the only freedom |
| `ConceptFilter.ContainsIffOccurs` | TrendAnalysis.py:28-30 | the substring search succeeds exactly when the pattern occurs at some position of the text |
| `ConceptFilter.FilteredArticles` | TrendAnalysis.py:27-30 | `filtered_articles` as the script leaves it: no longer than the ranked table, and every kept row is a ranked row whose Author Keywords match; the full characterisation is `FilteredArticlesMembers` (both directions, copy counts) and `FilteredArticlesRanked` (order) |
| `ConceptFilter.FilteredArticlesMembers` | TrendAnalysis.py:27-30 | a ranked row is in `filtered_articles` iff its Author Keywords are present and, lower-cased, contain `usability`, `utility` or `user-centric`; every copy of such a row is kept and no copy of any other |
| `ConceptFilter.FilteredArticlesRanked` | TrendAnalysis.py:21-30 | `filtered_articles` is an order-preserving subsequence of the ranked table, so it is still sorted by `Cited by`, descending |
| `ConceptFilter.CaseInsensitive` | TrendAnalysis.py:28-30 | a text mentions a concept iff its lower-cased form does |
| `ConceptFilter.KeywordsUsabilityKept` | TrendAnalysis.py:27-30 | a ranked row with Author Keywords "usability, UX" is kept |
| `ConceptFilter.TitleMatchLostByScript` | TrendAnalysis.py:24-30 | a ranked row titled "Usability" with no Author Keywords is dropped by the script, but kept by the three-column filter |
| `ConceptFilter.FilteredArticlesAnyColumnSpec` | TrendAnalysis.py:24-30 | the three-column filter keeps a ranked row iff one of Title, Abstract or Author Keywords is present and mentions a concept; the result keeps the ranked order |
| `ConceptFilter.ScriptFilterWithinIntended` | TrendAnalysis.py:24-30 | every row the script keeps, with its copies, is also kept by the three-column filter |
| `CitationTrends.GroupByYear` | TrendAnalysis.py:37 | `citation_trends`: at most one group per row; `GroupByYearSpec` gives its years, order and sums, and `TrendsDetermined` shows those fix the result |
| `CitationTrends.GroupByYearSpec` | TrendAnalysis.py:37 | the groups come in strictly ascending year order; they list exactly the years present in the table; each year's total is that year's sum of `Cited by`; together they hold every citation of a dated row |
| `CitationTrends.GroupSums` | TrendAnalysis.py:37 | each output row carries the sum of `Cited by` over the table rows of its year |
| `CitationTrends.ConservesCitations` | TrendAnalysis.py:37 | when every row has a year, as after cleaning, the yearly totals add up to the table's total `Cited by` |
| `CitationTrends.TrendsDetermined` | TrendAnalysis.py:37 | two ascending year lists with the same years and the same per-year totals are equal, so the properties above fix the result |
| `CitationTrends.GroupByYearPermutation` | TrendAnalysis.py:37 | the grouping does not depend on row order; the ranked table groups to the same result as the normalised one |
| `TrendAnalysis.Analyse` | TrendAnalysis.py:9-37 | the full run: the ranked table is a descending permutation of the cleaned, normalised table, and every ranked row has a count and a year; `filtered_articles` is the Author Keywords mask and a sorted subsequence of the ranked table; `citation_trends` is ascending by year, has the per-year sums, and conserves the total |

## Left out

- Reading `FullScopusSource.csv` and `thesaurus.xlsx` (lines 9-10): the rows of both files are parameters of `Analyse`.
- Plotting with matplotlib and seaborn (lines 33-47): it renders charts and has no behaviour to state.
- Columns other than Title, Abstract, Author Keywords, Year and Cited by. The script's `replace` runs over every column of the export; the model has only these five.
- Thesaurus cells holding numbers: a rule is text or blank. A text rule never matches the numeric `Year` or `Cited by` cells. A blank rule would match only a missing one, and none is left after cleaning (line 13), which is the only table line 17 sees.
- Thesaurus.ReplaceInTable: states that `Year` and `Cited by` never change, for any table. pandas would write a blank rule's replacement into a missing `Year` or `Cited by` cell. That case cannot arise in the script, because cleaning has removed every such cell before the thesaurus runs (`Cleaning.CleanedSpec`).
- ConceptFilter.FilteredArticles: column types are not modelled. If a text column is empty in every row of the export, pandas reads it as a float column. Then `.str.contains` raises at line 28 (Abstract), 29 (Title) or 30 (Author Keywords), and the script stops before `citation_trends` (line 37) is computed. The model treats every such cell as a non-match: `TrendAnalysis.Analyse` still returns `filtered_articles` (empty when the empty column is Author Keywords) and the yearly totals instead of failing.
- General regular-expression semantics of `str.contains`: the three patterns have no active metacharacters, so the alternation is a plain substring search.
- Full Unicode case folding: case-insensitivity is ASCII lower-casing.
- `Ranking.RankByCitations`: the order of rows with equal `Cited by` is the one this insertion sort gives; pandas promises no tie order, so nothing else depends on it.
- pandas' conversion of `Cited by` and `Year` to floating point when NaNs are present, the row index labels that `dropna` and `sort_values` carry, and `reset_index`: counts are naturals, years are integers, and rows are compared by value.

## Findings

| source | as written | input that shows it | evidently intended | confidence | as-written member | corrected member |
|---|---|---|---|---|---|---|
| TrendAnalysis.py:28-30 | each line reassigns `filtered_articles` from `most_cited_articles`, so the Abstract and Title masks are thrown away and only the Author Keywords mask decides | a ranked row titled "Usability" with no Author Keywords is dropped | keep rows whose Title, Abstract or Author Keywords mention a concept, as the comment at lines 24-26 says | medium, not executed | `ConceptFilter.FilteredArticles` (shown by `ConceptFilter.TitleMatchLostByScript`) | `ConceptFilter.FilteredArticlesAnyColumn` (proved by `ConceptFilter.FilteredArticlesAnyColumnSpec`) |

Nothing later in the script reads `filtered_articles`. So `Analyse` returns the value the
script computes, and the corrected filter is defined and proved next to it.
