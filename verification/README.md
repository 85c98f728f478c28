# Survey-analysis helpers of the data science blog, modelled in Dafny

The blog analyses the yearly Stack Overflow developer surveys. Its helper
module turns raw survey tables into small summary tables for plotting:

- **Column search** finds, for every yearly table, the columns whose
  lower-cased name contains one of a list of keywords.
- **Gender classification** maps a free-text gender answer to
  `Queer/Non-binary`, `Female`, `Male` or `Other` by ordered,
  case-insensitive substring rules.
- **Remote work per year** and **gender per year** count one column per
  year and normalise each raw answer. The normalisation goes through a
  category map or through the gender classifier. The counts are then summed
  per (year, label), with each year's total and the proportion.
- **Gender per country** classifies the gender answers of one year. It
  counts them per (country, gender) and adds each country's total.
- **Languages per branch** looks at one year. It maps the `MainBranch`
  answer through a branch map and keeps professional developers and
  learners. It splits the `;`-separated language list and counts per
  (branch, language) with each branch's total. Only then does it keep the
  rows of the top languages.

The blog's earlier project directory carries a second, identical copy of
the column search and the classifier.

The model is a set of pure functions over immutable data:

| file | module | what it holds |
|---|---|---|
| `wrappers.dfy` | `Wrappers` | `Option` and `Result` |
| `text.dfy` | `Text` | ASCII `lower()`, substring containment (`in`), `split`/`join` |
| `survey.dfy` | `Survey` | tables, cells (a missing answer is `None`), the `KeyError`s as an `Error` type, column lookup and `dropna` on a pair of columns |
| `gender.dfy` | `Gender` | `categorize_gender` and its precedence |
| `column_search.dfy` | `ColumnSearch` | `search_for_columns_with_keyword` |
| `tally.dfy` | `Tally` | weighted observations, `value_counts`, `groupby(...).sum()` |
| `aggregate.dfy` | `Aggregate` | rows with count and total (`transform("sum")`), proportions, `isin` filtering |
| `yearly.dfy` | `YearlyShares` | `prepare_remote_work_data`, `prepare_gender_dist_data` |
| `country.dfy` | `CountryShares` | `prepare_gender_dist_data_per_country` |
| `language.dfy` | `LanguageShares` | `prepare_language_data` |
| `udacity.dfy` | `UdacityUtils` | the second copy of the search and the classifier |

Each output row is `Row(group, category, count, total)`:

- `group` is the Year, Country or Branch.
- `category` is the State, Gender or Language.
- The proportion is `count / total`, an exact real.

Each aggregation is stated against an independent reference count over the
raw answers. Examples are `CountWhere` over a year's answers, `Classified`
over the answered pairs and `Mentions` over the split language lists. The
lemmas connect the aggregation to that reference for every input. The
answered pairs are in turn tied to the table's responses: `ResponseSum`
sums a per-response score over the responses that answered both columns,
and the per-country and language tables state their counts with it.

## Model

| member | source | states |
|---|---|---|
| Text.Split | data_science_blog/utils.py:215 | `str.split(";")` yields at least one piece and no piece contains the separator |
| Text.JoinSplit | data_science_blog/utils.py:215-216 | joining the pieces of a split with the separator gives back the original answer, so exploding loses no text |
| Text.SplitJoin | data_science_blog/utils.py:215-216 | splitting the join of one or more separator-free pieces gives back exactly those pieces |
| Text.Lower | data_science_blog/utils.py:44 | `str.lower` keeps the length, leaves no upper-case letter, turns each ASCII capital into its small letter and keeps every other character |
| Text.ContainsIffOccurs | data_science_blog/utils.py:25 | Python's `sub in s` holds exactly when sub occurs at some position of s |
| Text.LowerIdempotent | data_science_blog/utils.py:44 | lower-casing an already lower-cased answer changes nothing |
| ColumnSearch.MatchingColumns | data_science_blog/utils.py:22-26 | the listed columns are a subsequence of the table's columns, and each column is listed exactly as often as the table has it if its lower-cased name contains a keyword, otherwise never |
| ColumnSearch.MatchingColumnsMembers | data_science_blog/utils.py:22-26 | a name is listed exactly when it is a column of the table and matches a keyword |
| ColumnSearch.MatchingEmptyIffNoMatch | data_science_blog/utils.py:22-30 | a table's list is non-empty exactly when the table passes the outer filter |
| ColumnSearch.Search | data_science_blog/utils.py:21-31 | a dataset is a key exactly when one of its columns matches a keyword; its value is its matching column list, which is never empty |
| ColumnSearch.SearchDropsExactlyEmptyLists | data_science_blog/utils.py:27-30 | the outer filter drops exactly the datasets whose matching list would be empty |
| ColumnSearch.SearchExample | data_science_blog/utils.py:21-31 | tables A with columns Age and Gender and B with columns X and Y, searched for "gender", give only A with ["Gender"] |
| Gender.Categorize | data_science_blog/utils.py:44-59 | the result is always one of the four labels |
| Gender.CategorizeByPrecedence | data_science_blog/utils.py:44-59 | the classifier applies to the lower-cased answer, in order: queer keywords, then female keywords, then male keywords, else Other. The genderqueer test is subsumed by the queer test, and the guards of the Male rule never change the outcome |
| Gender.CategorizeIgnoresCase | data_science_blog/utils.py:44 | an answer and its lower-cased form are classified alike |
| Gender.QueerWinsInAnyContext | data_science_blog/utils.py:45-51 | an answer classified Queer/Non-binary stays so with any text added before or after it |
| Gender.FemaleBeatsMaleInAnyContext | data_science_blog/utils.py:52-57 | an answer classified Female stays Female with any text added, even male words, unless the added text makes it Queer/Non-binary |
| Gender.GenderedNeverOther | data_science_blog/utils.py:45-59 | an answer classified as a gender never becomes Other when text is added around it |
| Gender.WomanAndManExamples | data_science_blog/utils.py:52-57 | "Woman" is Female although it contains "man"; "Man" is Male |
| Gender.SelfDescribedExample | data_science_blog/utils.py:45-51 | "Prefer to self-describe: genderqueer" is Queer/Non-binary |
| Gender.WithoutKeywordLettersIsOther | data_science_blog/utils.py:44-59 | an answer whose lower-cased form has none of the letters b, c, q, m is Other |
| Gender.RefusalExample | data_science_blog/utils.py:58-59 | "Prefer not to say" is Other |
| Survey.YearTable | data_science_blog/utils.py:79 | `data[year]` fails with a missing-year error exactly when the collection has no table for the year, and otherwise gives that table |
| Survey.MappedColumn | data_science_blog/utils.py:155 | `column_map[year]` fails with a missing-mapping error exactly when the map has no entry for the year, and otherwise gives the mapped column name |
| Survey.ColumnCells | data_science_blog/utils.py:79 | selecting a column fails with a missing-column error exactly when the table lacks it; otherwise there is one cell per response, taken from that column |
| Survey.AnsweredPairs | data_science_blog/utils.py:154-156 | selecting two columns and dropping incomplete responses fails exactly when a column is missing, naming the first missing one. Otherwise a pair is kept exactly when some response answered the first column with its first element and the second column with its second. Each pair occurs as many times as there are responses that gave it, and any per-pair score summed over the kept pairs equals that score summed over the responses that answered both columns |
| Survey.BothPresent | data_science_blog/utils.py:156 | `dropna` keeps a pair exactly when some response has both cells present with those values. Any per-pair score summed over the kept pairs equals its sum over the positions where both cells are present |
| Survey.BothPresentMultiplicity | data_science_blog/utils.py:156 | `dropna` keeps each pair exactly once per position whose two cells are present and hold it, neither merging nor adding responses |
| Tally.ValueCounts | data_science_blog/utils.py:79 | `value_counts()` lists each distinct present answer once, and only those. Its count is the number of responses giving it, at least one; missing cells are not counted |
| Tally.ValueCountsWeight | data_science_blog/utils.py:79-86 | summing the counts of the answers that satisfy a test gives the number of responses that satisfy it |
| Tally.GroupSum | data_science_blog/utils.py:89 | `groupby(...).sum()` has distinct keys, exactly the keys present, each with the summed weight of its records |
| Tally.GroupSumKeepsWeight | data_science_blog/utils.py:89 | grouping preserves the total weight of any selection of keys |
| Aggregate.WithTotals | data_science_blog/utils.py:88-93 | the grouped rows have distinct keys, exactly the record keys. Each row's count is its key's summed weight and its total is the summed weight of its group, so count <= total |
| Aggregate.TotalIsSumOfCounts | data_science_blog/utils.py:91-93 | a group's total equals the sum of the counts of that group's rows |
| Aggregate.ProportionsSumToOne | data_science_blog/utils.py:94-96 | the proportions of a group with a positive total add up to exactly one |
| Aggregate.KeepLabels | data_science_blog/utils.py:227 | `isin` keeps exactly the rows whose label is listed, unchanged |
| Aggregate.KeepLabelsMultiplicity | data_science_blog/utils.py:227 | `isin` keeps each row with a listed label as often as the table holds it, and no row with another label |
| Aggregate.KeepLabelsDistinct | data_science_blog/utils.py:227 | filtering a table with one row per key leaves a table with one row per key |
| YearlyShares.CollectFailure | data_science_blog/utils.py:78-79 | the loop over the year-to-column map fails exactly when some item names a year or a column that is missing. The error is the first such item's, a missing year before a missing column |
| YearlyShares.CollectWeights | data_science_blog/utils.py:78-86 | on success, the records of (year, label) weigh the number of that year's answers normalised to the label; all records of a year weigh the number of its answers that normalise at all |
| YearlyShares.CollectEmptyIff | data_science_blog/utils.py:78-89 | on success there are no records exactly when no answer of any mapped year normalises |
| YearlyShares.Shares | data_science_blog/utils.py:77-97 | the table fails with the first broken item's error exactly when some item is broken. It fails with no-records exactly when no answer normalises. Otherwise every row's year is mapped, and its count and total are those reference counts over the year's answers, with 1 <= count <= total. A (year, label) row exists exactly when its count is positive, and there is exactly one row per (year, label) |
| YearlyShares.SharesTotalsAreSums | data_science_blog/utils.py:91-93 | every row's Yearly total / Total equals the sum of the Counts of that year's rows |
| YearlyShares.SharesProportionsSumToOne | data_science_blog/utils.py:94-96 | each year's proportions add up to exactly one |
| YearlyShares.RemoteWork | data_science_blog/utils.py:62-97 | every State is a value of the category map. Its Count is the number of the year's answers the map sends to it; the Yearly total is the number of the year's answers the map knows. A (year, State) row exists exactly when that count is positive, and there is one row per (year, State). The table fails with the first broken item's error exactly when some item is broken, and with no-records exactly when no answer of any mapped year has a State |
| YearlyShares.GenderDist | data_science_blog/utils.py:100-132 | no row is Other and every Gender is a label. The Count is the number of the year's answers classified as that gender, and the Total the number not classified Other. A (year, gender) row exists exactly when that count is positive, and there is one row per (year, gender). The table fails with the first broken item's error exactly when some item is broken, and with no-records exactly when no answer of any mapped year is classified as anything but Other |
| CountryShares.CountryRecordsWeights | data_science_blog/utils.py:164-170 | after classification and dropping Other, the records of (country, gender) weigh the number of that country's responses classified as that gender |
| CountryShares.CountryTable | data_science_blog/utils.py:164-176 | every row has a gender other than Other. Count is the number of the country's responses classified as that gender; Total is the number of the country's responses not classified Other. A pair has a row exactly when its count is positive, and there is one row per (country, gender) |
| CountryShares.GenderPerCountry | data_science_blog/utils.py:135-178 | the lookups fail in the source's order: year, gender column name, country column name, then the columns. A missing column is reported as the gender column when that one is missing, else as the country column. On success the result is the country table of the year's answered pairs. Each row's Count is the number of the year's responses from that country, with both answers present, classified as that gender. Its Total is the number of such responses from the country not classified Other. A (country, gender) row other than Other exists exactly when that count is positive, and there is one row per (country, gender) |
| CountryShares.ClassifiedSums | data_science_blog/utils.py:164-173 | the per-country reference counts are per-response scores summed over the answered pairs |
| CountryShares.CountryTotalsAreSums | data_science_blog/utils.py:171-173 | every row's Total equals the sum of the Counts of that country's rows |
| CountryShares.CountryProportionsSumToOne | data_science_blog/utils.py:174-176 | each country's proportions add up to exactly one |
| LanguageShares.BranchOf | data_science_blog/utils.py:210 | `Series.replace` with the branch map renames a branch the map knows to its mapped name and leaves any other branch as it is |
| LanguageShares.LanguageRecordsWeight | data_science_blog/utils.py:210-221 | after branch mapping, the branch filter and exploding, a (branch, language) pair is counted once per listing of that language in an answer from a kept branch |
| LanguageShares.LanguageRecordsWeightWhere | data_science_blog/utils.py:210-224 | a branch's total is the number of language listings in the kept answers of that branch |
| LanguageShares.AllLanguageRows | data_science_blog/utils.py:202-225 | before the top-language filter, every row's branch is Professional developer or Learning/Hobby. Count and Total are those listing counts, with 1 <= count <= total. A pair has a row exactly when it is listed at least once, and there is one row per (branch, language) |
| LanguageShares.LanguageTotalsAreSums | data_science_blog/utils.py:222-224 | before the top-language filter, every row's Total equals the sum of the Counts of that branch's rows |
| LanguageShares.LanguageProportionsSumToOne | data_science_blog/utils.py:222-225 | before the top-language filter, each branch's proportions add up to exactly one |
| LanguageShares.TopLanguageRows | data_science_blog/utils.py:227-229 | the published rows are exactly the pre-filter rows whose language is a top language. Their Count and Total are unchanged, each carries the year, and no two published rows share a (branch, language) |
| LanguageShares.LanguageData | data_science_blog/utils.py:181-231 | the lookups fail in the source's order: year, language column name, then the language column or MainBranch. A missing column is reported as the language column when that one is missing, else as MainBranch. On success the result is the top-language table of the year's answered pairs. Every published row carries the year, a top language and a kept branch. Its Count is how often that language is listed by the year's responses in that branch with both answers present; its Total is how many languages those responses list. Every row with a top language and such a positive count is published, and no two published rows share a (branch, language) |
| LanguageShares.MentionSums | data_science_blog/utils.py:210-224 | the per-branch listing counts are per-response scores summed over the answered pairs |
| LanguageShares.SplitExample | data_science_blog/utils.py:215-216 | "Python;Go;Rust" lists Python, Go and Rust |
| UdacityUtils.Categorize | udacity_data_science_blog/utils.py:22-38 | the second copy always gives a label, follows the same precedence and agrees with the first copy on every answer |
| UdacityUtils.Search | udacity_data_science_blog/utils.py:6-19 | the second copy keeps exactly the datasets with a matching column, maps each to its non-empty matching list and equals the first copy's result |
| UdacityUtils.MatchingAgrees | udacity_data_science_blog/utils.py:10-14 | the second copy's list of matching columns is the first copy's for every table and keyword list |
| UdacityUtils.SearchAgrees | udacity_data_science_blog/utils.py:6-19 | the second copy's dictionary comprehension builds the same map as the first copy's |

## Left out

- The plotting functions (`create_plot_*`, data_science_blog/utils.py:234 onward) only build figures.
- Row order. pandas sorts the grouped keys; the model lists keys in order of first appearance. Every contract is about which rows exist, that each key has one row, and what the rows hold, so no order is stated.
- Floating point. Proportions are exact reals `count / total` and are computed from the rows when needed, not stored as a column.
- Text.Lower: lower-cases ASCII letters only. Python's `str.lower` also folds non-ASCII letters.
- Cells are strings or missing. A numeric cell, on which `lower()` would raise, is not modelled.
- Tables with two columns of the same name are not modelled. Nor is a call whose gender and country column, or language column and `MainBranch`, are the same column. Column lookup takes the first column of that name.
- A year-to-column map is a list of (year, column) items in insertion order with no repeated year, as a Python dict iterates.
- A missing year, mapping or column, which raises `KeyError` in the source, is an `Error` result rather than a precondition. The case where no response contributes a record to the remote-work or gender-per-year table is the `NoRecords` error: the source builds a data frame with no columns there, and its `groupby` raises `KeyError`. The per-country and language tables are simply empty in that case.
- The `Proportional`/`Proportion` column and the differing column names (`Yearly total` versus `Total`) are not carried; all tables share one row type.
- Survey.AnsweredPairs: a missing column is reported by the first missing name alone. pandas raises one `KeyError` listing every missing label, so the error's text is simplified.
- Survey.BothPresent: states which pairs are kept and how often, not that they keep the responses' order. Every table built on them counts pairs and does not depend on their order.
- Aggregate.KeepLabels: states which rows are kept, not that their relative order is preserved.
- LanguageShares.TopLanguageRows: states which rows are published and that each (branch, language) is published once, not their order.
