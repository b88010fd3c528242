# Fatty liver and diabetes dashboard: the clinical-metrics core

This project models the computations of the dashboard in `app.py` and proves properties of
them. It covers:

- the four calculators: FIB-4, the NAFLD fibrosis score (NFS), HOMA-IR, and the estimated
  average glucose (eAG) derived from HbA1c;
- the two risk categorizers, for FIB-4 and for NFS;
- the BMI formula;
- the single-patient path: the sidebar's values, the `scores` dictionary, the four metric tiles
  and the risk summary;
- the lab-history handler: it sorts the rows by timestamp and adds one score column per
  calculator;
- the CGM handler: it sorts the readings, flags those in 70-180 mg/dL, and computes the time in
  range, the mean, the counts of low (< 70) and very high (> 250) readings, and an advisory
  when a count reaches two.

Python's `None` is `Option.None`. The numbers are exact reals. `math.sqrt` is a parameter of
type `SquareRoot`: any function that is positive on positive inputs.

Modules, in dependency order:

- `Optional` (`option.dfy`);
- `RealArith` (`arith.dfy`): sign and order facts about quotients;
- `Scores` (`scores.dfy`): the calculators, BMI and the categorizers;
- `Sorting` (`sorting.dfy`): an in-place sort of a table by an integer key;
- `LabHistory` (`labs.dfy`);
- `Cgm` (`cgm.dfy`);
- `Dashboard` (`dashboard.dfy`).

## Model

| member | source | states |
|---|---|---|
| Scores.Fib4 | app.py:9-12 | No score exactly when one of the four inputs is missing, or ALT or platelets is not positive. Otherwise score × (platelets × √ALT) = age × AST. |
| Scores.Fib4Sign | app.py:9-12 | A computed FIB-4 is positive exactly when age × AST is positive, and zero exactly when age × AST is zero. |
| Scores.Nfs | app.py:14-18 | No score exactly when one of the six inputs is missing. The diabetes flag never makes the score missing. |
| Scores.NfsDiabetesStep | app.py:17 | Type 2 diabetes adds exactly 1.13 to the score, all else equal, and does not change whether a score exists. |
| Scores.NfsAgeAndAlbuminSteps | app.py:17-18 | One more year of age adds 0.037. One more g/dL of albumin subtracts 0.66. |
| Scores.NfsInterceptAndSteps | app.py:17-18 | With every input but ALT at 0, the score is −1.675. One more kg/m² of BMI adds 0.094. One more unit of AST/ALT adds 0.99. One more 10^9/L of platelets subtracts 0.013. |
| Scores.HomaIr | app.py:20-22 | No value exactly when glucose or insulin is missing. Otherwise 405 × HOMA-IR = insulin × glucose. |
| Scores.HomaIrZeroAndSign | app.py:20-22 | HOMA-IR is 0 exactly when glucose or insulin is 0. It is non-negative for non-negative inputs. |
| Scores.Eag | app.py:24-26 | No value exactly when HbA1c is missing. Otherwise `(eAG + 46.7) / 28.7` gives back the HbA1c, which fixes eAG = 28.7 × HbA1c − 46.7. |
| Scores.EagRoundTrip | app.py:24-26 | The eAG formula is inverted by `(eAG + 46.7) / 28.7`, in both directions. |
| Scores.EagStrictlyIncreasing | app.py:24-26 | A higher HbA1c always gives a higher eAG. |
| Scores.Bmi | app.py:51 | BMI × (height/100) × (height/100) = weight. |
| Scores.BmiMonotone | app.py:51 | BMI is positive for a positive weight and height. It rises with weight and falls with height. |
| Scores.Category.Label | app.py:28-38 | A category's label is the em dash exactly for the category of a missing score. |
| Scores.CategorizeFib4 | app.py:28-32 | "—" exactly for a missing score. Low exactly below 1.3. Indeterminate exactly in [1.3, 2.67]. High exactly above 2.67. |
| Scores.CategorizeNfs | app.py:34-38 | "—" exactly for a missing score. Low exactly below −1.455. Indeterminate exactly in [−1.455, 0.676]. High exactly above 0.676. |
| Scores.CategoriesMonotone | app.py:28-38 | A higher score never gets a lower risk category, for either score. |
| Scores.CategoryBoundaries | app.py:28-38 | Each upper cut-off (2.67, 0.676) belongs to Indeterminate. Each lower cut-off (1.3, −1.455) belongs to Indeterminate, not Low. The category of a missing score is labelled "—". |
| Sorting.SortByKey | app.py:84 | Afterwards the table is in ascending key order and holds the same rows, counted with multiplicity. |
| Sorting.SortedPermutationUnique | app.py:84 | Two tables sorted by a key that identifies their rows, holding the same rows, are equal. |
| LabHistory.ScoreRow | app.py:85-88 | One row's four `apply` results are computed from that row alone. FIB-4 is missing exactly when its four inputs are incomplete or ALT or platelets is not positive. NFS is missing exactly when one of its six inputs is. HOMA-IR is missing exactly when glucose or insulin is. eAG is missing exactly when HbA1c is. |
| LabHistory.ProcessLabHistory | app.py:84-88 | The result holds every input row exactly once, in ascending timestamp order. Each row carries the four scores of that row's own fields. |
| LabHistory.AddScoreColumns | app.py:85-88 | Row k of the result is input row k with its FIB-4, NFS, HOMA-IR and eAG. |
| LabHistory.ScoredHistoryOrderIndependent | app.py:84-88 | Two uploads with the same rows, in any order, give the same scored table, provided rows with equal timestamps are equal. |
| LabHistory.MissingAltOnlyAffectsLiverScores | app.py:85-88 | A row without ALT has no FIB-4 and no NFS, but keeps its HOMA-IR and eAG when their own inputs are present. |
| Cgm.SummarizeCgm | app.py:97-107 | The readings are sorted and are a permutation of the upload. The in-range column is 1 exactly for readings in [70, 180]. The lows and highs are the counts of readings below 70 and above 250. Time in range is 100 × in-range count / n, within [0, 100]. The mean is the sum / n. Both are absent for an empty upload. Each advisory is raised exactly when its count is at least 2. |
| Cgm.InRangeColumn | app.py:98 | Entry k is 1 if reading k lies in [70, 180], bounds included, and 0 otherwise. |
| Cgm.Tally | app.py:98-105 | The single pass returns the in-range count, the low count, the very-high count and the sum of the glucose values. |
| Cgm.CoefficientOfVariation | app.py:101 | The CV is withheld exactly when the rounded mean is 0. When it is given, the mean is not 0 and CV = round(100 × std / mean). |
| Cgm.Count | app.py:104-105 | A count never exceeds the number of readings. |
| Cgm.CountPermutation | app.py:97-105 | Counting low, in-range or very high readings gives the same result before and after the sort. |
| Cgm.TotalPermutation | app.py:97-100 | The sum of the glucose values, and so the mean, is the same before and after the sort. |
| Cgm.CountsDisjoint | app.py:98-105 | Low, in-range and very high readings together number at most the readings, as the three bands do not overlap. |
| Cgm.CountPositive | app.py:104-105 | A count is at least one exactly when some reading crosses the threshold. |
| Cgm.AdvisoryIffTwoReadings | app.py:104-107 | `Cgm.Advisory` is the `>= 2` rule. It holds for a count exactly when two different readings cross that count's threshold. |
| Cgm.PercentBounds | app.py:99 | The time-in-range percentage of a non-empty upload lies in [0, 100]. |
| Dashboard.Evaluate | app.py:42-64 | Within the sidebar widgets' bounds, which `Dashboard.WithinWidgetBounds` states as the `number_input` limits, all four scores are computed and both risk labels are real categories. FIB-4 is positive, eAG is at least 68.1, BMI is positive, and HOMA-IR is 0 exactly when the fasting insulin is 0. |
| Dashboard.Display | app.py:67-74 | As written, a tile shows "—" exactly when the score is missing or exactly 0. Otherwise it shows the score itself. |
| Dashboard.DisplayIntended | app.py:67-74 | A tile shows "—" exactly when the score is missing. Otherwise it shows the score itself. |
| Dashboard.DisplayDiffersOnlyAtZero | app.py:67-74 | The two displays disagree on exactly one value: a computed score of 0. |
| Dashboard.ZeroInsulinShownAsMissing | app.py:56-74 | Within the widgets' bounds, the FIB-4 and eAG tiles always show a number. The HOMA-IR tile shows "—" exactly when the fasting insulin is 0, though the intended display shows the computed value. |
| Dashboard.ZeroInsulinExample | app.py:42-74 | With the sidebar's default values and the fasting insulin at 0, HOMA-IR is computed as 0 but its tile shows "—". |

## Left out

- The Streamlit interface is not modelled: the page set-up, the widgets' rendering, the line
  charts, the data-frame views, the caption and warning texts. Only the numbers behind them are.
- CSV parsing is not modelled. Rows arrive already parsed. Timestamps are integers, so that
  parsed dates order as they do.
- Floating point is not modelled. Arithmetic is exact over the reals: no rounding error, no
  infinity, no NaN.
- A missing cell among the lab calculators' inputs (age, AST, ALT, platelets, albumin, BMI,
  glucose, insulin, HbA1c) is `None`. pandas reads such a cell as NaN, and NaN reaches the
  calculators, which test only for `None`. That NaN propagation is not modelled.
- LabHistory.LabRow: `has_t2d` is a plain number, so a blank cell cannot be expressed. pandas
  reads it as NaN, and `bool(NaN)` is true at app.py:86, so such a row gets the +1.13 of a
  diabetic patient in its NAFLD fibrosis score. The model does not capture that.
- Cgm.SummarizeCgm: a reading's glucose is a plain number, so a blank glucose cell cannot be
  expressed. In pandas it is NaN: it fails all three band tests, so it counts in the
  time-in-range denominator as out of range, while `.mean()` skips it. So the source's time in
  range and mean can have different denominators. The model gives both the same denominator,
  the number of readings.
- Sorting.SortByKey: every timestamp is a present integer. In pandas a blank timestamp is NaT,
  and `sort_values` puts it last. If any timestamp cannot be parsed, the whole column stays
  text, and the rows are sorted as strings. The model does not capture either case.
- Scores.Fib4: `math.sqrt` is an abstract function that is positive on positive inputs. It is
  not the exact square root, because the reals here have no square root.
- Scores.Bmi: `weight / ((height/100) ** 2)` is written as two divisions by `height/100`, which
  is the same real number. The solver reasons about the two divisions more easily.
- Scores.Nfs: a row whose ALT is 0 while its other inputs are present is excluded by a
  precondition. In Python, `ast/alt` would raise or give an infinity there. The sidebar's
  ALT widget never gives 0.
- LabHistory.ProcessLabHistory: requires every row to satisfy the same ALT condition as
  `Scores.Nfs`.
- Dashboard.Evaluate: requires the values to lie within the sidebar widgets' bounds, which is
  all the widgets can hand over.
- The sex selector is carried in the snapshot. No calculator reads it, and neither does the
  source.
- Sorting.SortByKey: pandas' default sort is not stable. So the contract promises only sorted
  order and the same rows; it says nothing about the order of rows with equal timestamps.
- LabHistory.AddScoreColumns, Cgm.InRangeColumn: the data-frame columns are built as sequences
  and returned with the rows. They are not written into a shared table in place.
- Cgm.SummarizeCgm: time in range and the mean are reported unrounded; `round(_, 1)` is
  not modelled.
- Cgm.SummarizeCgm: the standard deviation and the CV are not computed. The CV's guard is
  modelled separately, by `Cgm.CoefficientOfVariation` over a given mean, a given standard
  deviation and an abstract one-decimal rounding function.
- Cgm.SummarizeCgm: over an empty upload, pandas' mean is NaN. The model reports it as absent
  (`None`). The counts are 0, as pandas' sums are.
- The `.2f` and `.0f` formatting of the tiles and the `.1f` formatting of the BMI caption are
  not modelled. A tile's figure is the exact score.
- A zero ALT in an uploaded row: one could expect the NAFLD fibrosis score to be reported as
  missing there. The code does not do that; it raises or gives an infinity. The model does
  neither: it excludes the case by a precondition (see Scores.Nfs above).

## Findings

| source | as written | input that shows it | evidently intended | confidence | as-written member | corrected member |
|---|---|---|---|---|---|---|
| app.py:67-74 | Each tile tests the score's truthiness (`if scores[...]`). A score of exactly 0.0 is falsy, so a computed 0 is shown as "—", the placeholder for a missing score. | Fasting insulin 0.0, which the widget at app.py:56 allows, with any glucose. HOMA-IR is computed as 0.0, and its tile shows "—". | Show "—" only when the score is `None`; show a computed 0 as "0.00". | high for the discrepancy; not executed | Dashboard.Display (shown by Dashboard.ZeroInsulinShownAsMissing and Dashboard.ZeroInsulinExample) | Dashboard.DisplayIntended (with Dashboard.DisplayDiffersOnlyAtZero) |
