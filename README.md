# Student roster analytics — a Dafny model

`app.py` is a small Flask service over a fixed roster of twelve students.
Each student has a roll number, a name, a branch code (CSE, ECE, EEE, ME) and
three subject marks out of 100. Every handler first derives per-student
metrics:

- the total marks;
- the percentage of 300, rounded to two decimals;
- a grade letter: O, A, B, C, P or F, in bands of ten percent from 90 downward.

On top of these metrics the handlers offer:

- lookup by roll number;
- filters by grade and by a percentage cutoff;
- grouping by branch;
- the overall and per-branch toppers;
- the top N students;
- summary statistics with a grade histogram;
- a combined report.

This project models that core in Dafny and proves what the handlers promise.

- `Students` (`students.dfy`): the records, `calculate_grade`, `augment_data` and `get_combined_data`.
  - Percentages are stored as whole hundredths of a percent: 85.00 is `8500`.
  - For a total t out of 300 the stored value `round(t / 300 * 100, 2)` stands for h/100, where h is the integer nearest to `100 t / 3`. That integer is never a tie, since `100 t / 3` is never halfway between two integers. The model stores h.
- `Queries` (`queries.dfy`): `student_by_roll`, `students_by_grade` and `students_above_percentage`.
- `Branches` (`branches.dfy`): `unique_branches` and `branch_wise_students`.
- `Ranking` (`ranking.dfy`): `toppers` and `top_students`.
  - Python's `max` is modelled as the first maximum.
  - `sorted(..., reverse=True)` is modelled as a stable descending insertion sort.
- `Statistics` (`statistics.dfy`): `statistics`.
- `Report` (`report.dfy`): `generate_report`.
- `SampleRoster` (`sample.dfy`): the twelve-student list itself, with facts about it.
- `Sequences` (`sequences.dfy`): list-comprehension filtering, mapping and grouping, with their algebra.

The handlers read the global `students` list. Here each handler takes the
roster as a parameter, so every property holds for any roster.

Iterating a Python `set` visits the branches in an order the program does not
fix. The loops therefore pick any remaining branch (`:|`). The order they end
up using is returned where the source exposes it (`list(branches)`).

## Model

| member | source | states |
|---|---|---|
| Students.CalculateGrade | app.py:28-41 | The grade is one of O, A, B, C, P, F. Each letter is returned exactly on its band: O iff at least 90, A iff in [80, 90), and so on down to F iff below 50. |
| Students.GradeMonotone | app.py:28-41 | A higher percentage never earns a lower grade. |
| Students.ExactPercentage | app.py:48 | `(total / 300) * 100` before rounding: three times the percentage is the total. |
| Students.RoundedPercentage | app.py:48-52 | The stored percentage, in hundredths, is within a third of a hundredth of the exact `100 * total / 3`. |
| Students.RoundedPercentageUnique | app.py:52 | No other integer is that close, so the rounding is the nearest hundredth. |
| Students.RoundedPercentageOrder | app.py:48-52 | Rounding keeps order and distinctness of totals: comparing stored percentages is comparing totals. |
| Students.GradeFromTotal | app.py:28-49 | The grade of the exact percentage is the table on the total: 270, 240, 210, 180 and 150 are the O, A, B, C and P thresholds. |
| Students.GradeSurvivesRounding | app.py:48-52 | Grading the stored, rounded percentage would give the same letter as grading the exact one. |
| Students.Augment | app.py:47-54 | The total is the sum of the three marks. The percentage is the nearest hundredth of total/300. The grade is the total's band. |
| Students.AugmentData | app.py:43-55 | One metrics entry per student, in roster order, each equal to that student's metrics. |
| Students.CombinedData | app.py:57-71 | Same length as the roster. Record i carries roster entry i unchanged, plus that entry's metrics. |
| Students.GetCombinedData | app.py:57-71 | The enumerate loop builds exactly `CombinedData` of the roster. |
| Students.CombinedGrade | app.py:49-53 | Every combined record's grade is a grade letter and agrees with its own stored percentage. |
| Queries.StudentByRoll | app.py:94-101 | Not found iff no roster entry has the roll. Otherwise the result is the combined record of the first entry with that roll. |
| Queries.Upper | app.py:107 | `upper()` keeps the length and upper-cases each letter. |
| Queries.UpperIdempotent | app.py:107 | Upper-casing twice is upper-casing once. |
| Queries.HasGrade | app.py:107 | The test `s['grade'] == u` holds exactly when the query is one character long and that character is the record's grade. |
| Queries.StudentsByGrade | app.py:103-108 | The result holds exactly the combined records whose grade equals the upper-cased query, and nothing else. |
| Queries.ByGradeIgnoresCase | app.py:107 | A query and its upper-cased form select the same records. |
| Queries.ByGradeUnknownIsEmpty | app.py:103-108 | A query that is not a grade letter, in either case, selects nothing. |
| Queries.AtLeast | app.py:167 | The test `s['percentage'] >= cutoff` holds exactly when the stored hundredths are at least 100 times the cutoff. A record whose percentage is at least that of a passing record also passes. |
| Queries.StudentsAbovePercentage | app.py:163-168 | The result holds exactly the records whose stored percentage is at least the cutoff. |
| Queries.AboveCutoffNarrows | app.py:163-168 | Raising the cutoff only removes records. The result for the higher cutoff is the lower cutoff's result filtered again. |
| Queries.GradeOIsNinetyPercent | app.py:103-168 | Grade "O" (or "o") and cutoff 90 select the same records, in the same order. |
| Queries.CombinedDataConcat | app.py:57-71 | Combining two rosters combines their records in order. |
| Queries.FiltersKeepOrder | app.py:103-168 | Both filters keep roster order: filtering two roster parts and concatenating equals filtering the whole. |
| Branches.BranchSet | app.py:113 | `set(s['branch'] for s in students)`, the branch set also built at app.py:126, 142 and 195. It holds every student's branch, and is non-empty for a non-empty roster. Every element comes from some student by its definition. |
| Branches.CountInBranch | app.py:116 | A branch's count is positive exactly for the branches present in the roster. |
| Branches.UniqueBranches | app.py:110-121 | The branch list has no duplicates and holds exactly the roster's branches. Each branch maps to its student count. The counts add up to the roster size. |
| Branches.CountsAddUp | app.py:114-117 | Summed over the branch list, the per-branch counts give the roster size. |
| Branches.RollsInBranch | app.py:129 | A branch's roll list has the branch's count of entries. It holds every roll of the branch and only rolls of the branch. |
| Branches.BranchWiseStudents | app.py:123-131 | The keys are exactly the roster's branches, and each maps to that branch's roll list in roster order. |
| Branches.RollListsPartitionRolls | app.py:123-131 | Over all branches, the roll lists together hold every roll of the roster exactly as often as the roster does. |
| Ranking.FirstMaximumUnique | app.py:139 | `max` has one answer: there is at most one first maximum. |
| Ranking.TopperIndex | app.py:139 | The scan returns an index whose record is at least every record and strictly above every earlier record. |
| Ranking.Topper | app.py:139-147 | `max(..., key=percentage)` returns the first record with the highest percentage. |
| Ranking.BranchRecords | app.py:145-146 | The branch's records are non-empty exactly for the roster's branches. They hold all of the branch's combined records and only those. |
| Ranking.Toppers | app.py:133-153 | The overall topper is the first maximum of all records. The keys are exactly the roster's branches, each mapped to the first maximum of its own records. |
| Ranking.BranchTopper | app.py:144-148 | A branch's topper is in that branch and is a combined record. No record of the branch has a higher percentage. |
| Ranking.FirstMaximumSurvivesFilter | app.py:139-147 | Filtering keeps a first maximum that the filter selects as the first maximum of what remains. |
| Ranking.OverallTopperTopsItsBranch | app.py:139-147 | The overall topper's branch is a roster branch, and the overall topper is also that branch's topper. |
| Ranking.SortDescending | app.py:160 | The sorted records are in non-increasing percentage order and are a permutation of the input. |
| Ranking.InsertDescending | app.py:160 | One insertion step of the sort, with no contract of its own. It places the record before the first record whose percentage is not higher. Its properties are stated by `InsertPermutes`, `InsertSorted` and `InsertKeepsTies`. |
| Ranking.InsertPermutes | app.py:160 | One insertion step adds exactly the inserted record. |
| Ranking.InsertSorted | app.py:160 | Inserting into a descending sequence keeps it descending. |
| Ranking.InsertKeepsTies | app.py:160 | Inserting at the head puts the new record before every other record with the same percentage. |
| Ranking.SortIsStable | app.py:160 | The sort is stable: for each percentage, the records with it keep their input order. |
| Ranking.StableSortUnique | app.py:160 | A descending sequence that keeps each percentage's records in input order is unique. So the stable sort is exactly Python's `sorted`. |
| Ranking.HeadsAgree | app.py:160 | Two such sequences start with the same record. |
| Ranking.CutSorted | app.py:161 | After cutting a descending sequence, nothing past the cut is higher than anything before it. |
| Ranking.TopStudents | app.py:155-161 | Returns min(count, roster size) records, in descending order, drawn from the combined records. Every record left out is at most every record kept. |
| Ranking.TopStudentsKeepTies | app.py:160-161 | Among the records kept, equal percentages appear in roster order. |
| Statistics.Percentages | app.py:175 | One percentage per record, in order. |
| Statistics.Maximum | app.py:186 | `max` returns an element that no element exceeds. |
| Statistics.Minimum | app.py:187 | `min` returns an element that exceeds no element. |
| Statistics.Sum | app.py:176 | `sum(percentages)`, with no contract of its own. Its bounds are stated by `SumBounds`. |
| Statistics.SumBounds | app.py:176 | Element bounds lo and hi bound the sum by n·lo and n·hi. |
| Statistics.Mean | app.py:176 | `sum(percentages) / len(percentages)`, exactly: the mean times the count is the sum. |
| Statistics.MeanBetween | app.py:176 | The mean lies between the minimum and the maximum. |
| Statistics.GradeCountPositive | app.py:178-181 | A grade's count is positive exactly when some record has that grade. |
| Statistics.GradeCountStep | app.py:179-181 | Each record raises its own grade's count by one and leaves the others alone. |
| Statistics.CountGrades | app.py:178-181 | The histogram's keys are exactly the grades that occur, and each maps to the number of records with that grade. |
| Statistics.ComputeStatistics | app.py:170-189 | Reports the roster size, the exact mean and the highest and lowest stored percentage. The histogram keys are the grades that occur, each mapped to its count. |
| Statistics.DistributionTotals | app.py:178-188 | Only the six grade letters occur in the histogram, and its counts add up to the roster size. |
| Statistics.StatisticsConsistent | app.py:175-187 | lowest ≤ average ≤ highest, and the highest and the lowest are both some student's percentage. |
| Report.GenerateReport | app.py:191-217 | The total is the roster size. The branch list has no duplicates and holds exactly the roster's branches. Every branch maps to its topper's name. "overall" is always a key. Unless a branch is itself called "overall", that key names the overall topper. |
| Report.BranchTopperNames | app.py:201-206 | Visits each branch once: the branch list has no duplicates and holds exactly the roster's branches. The keys are exactly those branches, each mapped to its topper's name. |
| Report.Merge | app.py:211-214 | `{"overall": n, **branch_toppers}`: the keys are the branch keys plus "overall", and every branch entry is kept. "overall" maps to n unless a branch already has that key. |
| Report.ReportToppersAgree | app.py:198-214 | The overall topper's branch has an entry. Unless a branch is called "overall", that entry repeats the overall topper's name. |
| SampleRoster.Roster | app.py:13-26 | The twelve students of `students`, in order. Their roll numbers increase strictly, so no two share one. |
| SampleRoster.SampleMetrics | app.py:13-55 | Roll 102 totals 255 and is stored as 85.00 percent, grade A. Roll 109 is stored as 64.67 percent, grade C. |
| SampleRoster.SampleBelowRiyaa | app.py:13-52 | Every other student of the roster has a lower stored percentage than Riyaa. |
| SampleRoster.SampleOverallTopper | app.py:13-26 | On the real roster, the overall topper is Riyaa. |
| Sequences.Filter | app.py:107 | A list comprehension `[x for x in s if p(x)]`, as at app.py:107, 116, 129, 145, 167 and 203. Its ensures give membership only: an element is in the result iff it is in s and passes p, and the result is no longer than s. Order and multiplicity come from its definition, through `FilterConcat`. |
| Sequences.FilterConcat | app.py:107 | Filtering a concatenation concatenates the filtered parts, so every comprehension keeps input order. |
| Sequences.MapSeq | app.py:175 | A mapping comprehension `[f(x) for x in s]`, as at app.py:129 and 175. Same length as s, with element i equal to f of element i. |

## Left out

- The Flask layer is not modelled: routes, `jsonify`, `render_template`, `request` and `app.run` (app.py:297-298). Each handler is modelled as the value it would serialise. The 404 status of `student_by_roll` is the `NotFound` result.
- `generate_graphs` and `generate_graph_base64` (app.py:73-81, 219-295) only draw matplotlib/pandas charts into PNG bytes; drawing is outside the model.
- IEEE floating point is not modelled.
  - Percentages are exact hundredths, which is what `round(x, 2)` gives for totals out of 300.
  - The grade is taken from the exact quotient.
  - The cutoff of `students_above_percentage` is taken as an exact real.
- Statistics.ComputeStatistics: the average is the exact mean of the stored percentages. The final `round(avg, 2)` is not applied, because float ties would decide its last digit.
- Toppers, statistics and the report require a non-empty roster. On an empty roster the source's `max`, `min` and division raise an error, and the model does not model that failure. The shipped roster has twelve students.
- The order in which a Python set or dict is iterated is not fixed.
  - The branch order is any order without repeats.
  - `grades_count`'s key order is not modelled, only its contents.
- The `count` of `top_students` is a natural number, because the route's `int` converter accepts only non-negative values. Negative slicing is therefore not modelled.
- Queries.Upper: only ASCII letters are upper-cased. Full Unicode case mapping is not modelled. No non-ASCII character upper-cases to one of the six grade letters, so the grade filter behaves the same.
- The module-level `students` list is a parameter of every handler. The literal list itself is `SampleRoster.Roster`.
