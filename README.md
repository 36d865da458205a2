# Renalyser dataset cleaning and task dispatch

This project models two parts of the Renalyser crew application in Dafny and proves properties about them.

**The dataset cleaner.** `DataCleaningAgent.clean_dataset` takes a pandas DataFrame and works in three steps:

1. It drops exact-duplicate rows. The first occurrence of each row survives, in the original order, with its index label.
2. For every `float64`/`int64` column that has missing cells, it fills them with the column's mean, taken after deduplication.
3. For every `object` column that has missing cells, it fills them with `"Unknown"`.

It returns the cleaned table and a cleaning log. The log maps `"Removed Duplicates"` to the number of dropped rows. It also maps `"Filled Missing Values (Numeric): <column>"` and `"Filled Missing Values (Categorical): <column>"` to the number of missing cells found in that column.

**The task dispatcher.** `ExtendedCrew.run_task` runs a named task:

- It looks up the first task with the requested name.
- If no task has that name, it raises a `ValueError` naming the task.
- Otherwise it calls the first tool of that task's agent with the dataset.
- If that tool is falsy (e.g. `None`) or its `func` is not callable, it raises a `ValueError` naming the task.

The crew is configured with two tasks. "Validate Dataset" runs the validation tool; "Clean Dataset" runs the cleaning tool.

Files:

- `wrappers.dfy`: `Option` and `Result`.
- `dataframe.dfy` (module `DataFrame`): the part of pandas the cleaner uses.
  - A table is a `Dataset`: columns with a name and a dtype class (`Numeric` for `float64`/`int64`, `Object`, `Other`), one index label per row, and rows of cells `Num(real) | Str(string) | Null`.
  - Functions model `select_dtypes`, `drop_duplicates`, `isnull().sum()`, `mean()` and `fillna`.
- `custom_tool.dfy` (module `CustomTool`): the cleaner.
  - `Clean` is the specification function, built from the three stages.
  - `CleanDataset` and `ImputeColumns` are the source's procedure with its two loops over columns. Each is proved equal to the specification.
  - The lemmas state what the cleaned table and the log hold.
- `clean_examples.dfy` (module `CleanExamples`): worked instances.
  - The three-row table `[{a:x, b:s}, {a:x, b:s}, {a:null, b:null}]`.
  - A two-row table where imputation makes two rows equal.
- `crew.dfy` (module `Crew`): tools, agents and tasks as records, `ExtendedCrew.RunTask`, and the configured crew.

Behaviour of the code that is easy to miss:

- **Duplicates can come back after cleaning.** Deduplication happens before imputation, so filling missing cells can make two surviving rows equal (`CleanExamples.ImputationCanRepeatRows`). Distinctness holds for the deduplicated table, not for the cleaned one.
- **An all-missing numeric column is still logged as filled.** If a numeric column holds no number after deduplication, its mean is NaN and `fillna(NaN)` changes nothing. The cells stay missing, but the log still records every one of them under the numeric key (`CustomTool.CleanAllMissingNumeric`).
- **A table without columns keeps all its rows.** pandas returns an empty frame from `drop_duplicates` unchanged. A frame with no columns counts as empty even when it has rows, so its rows are all kept although they are equal, and the log records 0 removed duplicates (`CleanExamples.NoColumnsKeepsRows`).
- **Only `object` columns get the "Unknown" sentinel.** A column with any other non-numeric dtype (`Other`, e.g. bool or datetime) is not touched.
- **An empty tool list raises `IndexError`.** If the matching task's agent has no tools at all, `agent.tools[0]` raises `IndexError("list index out of range")`. That is not the `ValueError` naming the task. It is modelled as its own error, `NoTools`, whose exception class is `IndexError`.

## Model

| member | source | states |
|---|---|---|
| DataFrame.SelectDtypes | crew_ai_part/src/renalyser/tools/custom_tool.py:30 | the selected positions are exactly the columns of the requested dtype class, in column order without repeats |
| DataFrame.FirstOccurrences | crew_ai_part/src/renalyser/tools/custom_tool.py:26 | the positions kept are exactly those whose row has no equal row before it, in increasing order |
| DataFrame.DropDuplicates | crew_ai_part/src/renalyser/tools/custom_tool.py:26 | a table without columns is empty to pandas and is returned unchanged; otherwise the result has the same columns, no two equal rows and exactly the same set of rows, and each surviving row is the first occurrence of its value, kept in original order with its original index label |
| DataFrame.DropDuplicatesOfDistinct | crew_ai_part/src/renalyser/tools/custom_tool.py:26 | a table without duplicate rows is returned unchanged |
| DataFrame.DropDuplicatesIdempotent | crew_ai_part/src/renalyser/tools/custom_tool.py:26 | dropping duplicates twice is the same as dropping them once |
| DataFrame.ColumnValues | crew_ai_part/src/renalyser/tools/custom_tool.py:32-34 | `dataset[column]`: one value per row, the row's cell in that column |
| DataFrame.NullCount | crew_ai_part/src/renalyser/tools/custom_tool.py:32 | the missing count never exceeds the column length |
| DataFrame.NullCountPositive | crew_ai_part/src/renalyser/tools/custom_tool.py:33 | the missing count is positive exactly when the column holds a missing cell |
| DataFrame.NumericCounts | crew_ai_part/src/renalyser/tools/custom_tool.py:32-34 | in a numeric column, numbers plus missing cells make up the whole column |
| DataFrame.Mean | crew_ai_part/src/renalyser/tools/custom_tool.py:34 | the mean is undefined exactly when the column holds no number; otherwise mean times the count of numbers equals their sum, skipping missing cells |
| DataFrame.MeanBounds | crew_ai_part/src/renalyser/tools/custom_tool.py:34 | the mean lies between any lower and upper bound of the column's numbers |
| DataFrame.FillNa | crew_ai_part/src/renalyser/tools/custom_tool.py:34 | the shape is kept; a cell becomes the fill value exactly when it is in the filled column and missing, and every other cell is unchanged |
| DataFrame.FillNaClears | crew_ai_part/src/renalyser/tools/custom_tool.py:41 | after filling with a non-missing value the column has no missing cell, and every other column is unchanged |
| CustomTool.Pass.Key | crew_ai_part/src/renalyser/tools/custom_tool.py:35 | the log key of a column ends with the column name, and is never "Removed Duplicates" (the categorical key is built the same way at line 42) |
| CustomTool.Pass.FillValue | crew_ai_part/src/renalyser/tools/custom_tool.py:34 | the categorical pass fills with "Unknown" (line 41); the numeric pass fills with a number exactly when the column holds a number, that number times the count of numbers being their sum, and otherwise with a missing value, as `fillna` of a NaN mean does |
| CustomTool.KeyInjective | crew_ai_part/src/renalyser/tools/custom_tool.py:35 | different column names give different log keys |
| CustomTool.KeysDisjoint | crew_ai_part/src/renalyser/tools/custom_tool.py:28-42 | the duplicate key, the numeric keys and the categorical keys never collide |
| CustomTool.ImputeColumn | crew_ai_part/src/renalyser/tools/custom_tool.py:32-35 | one loop iteration keeps the table rectangular and its row count |
| CustomTool.ImputePass | crew_ai_part/src/renalyser/tools/custom_tool.py:31-35 | an imputation loop keeps the table rectangular and its row count |
| CustomTool.ImputePassCells | crew_ai_part/src/renalyser/tools/custom_tool.py:31-35 | after a loop, a cell holds the fill value computed from its column exactly when its column was selected and the cell was missing; every other cell is unchanged |
| CustomTool.ImputePassLog | crew_ai_part/src/renalyser/tools/custom_tool.py:31-35 | a loop logs a selected column's missing count exactly when it is positive; it logs nothing for unselected columns, keeps earlier entries and adds no other key |
| CustomTool.Deduplicated | crew_ai_part/src/renalyser/tools/custom_tool.py:24-28 | the table after the first step is rectangular |
| CustomTool.AfterNumeric | crew_ai_part/src/renalyser/tools/custom_tool.py:30-35 | the numeric loop keeps the deduplicated row count |
| CustomTool.AfterCategorical | crew_ai_part/src/renalyser/tools/custom_tool.py:37-42 | the categorical loop keeps the deduplicated row count |
| CustomTool.Clean | crew_ai_part/src/renalyser/tools/custom_tool.py:23-44 | the cleaned table has the original columns, the deduplicated index labels and the deduplicated row count |
| CustomTool.NumericStageCells | crew_ai_part/src/renalyser/tools/custom_tool.py:30-35 | the numeric loop fills exactly the missing cells of numeric columns, with the mean of the deduplicated column |
| CustomTool.CategoricalStageCells | crew_ai_part/src/renalyser/tools/custom_tool.py:37-42 | the categorical loop fills exactly the missing cells of object columns, with "Unknown" |
| CustomTool.SelectedColumns | crew_ai_part/src/renalyser/tools/custom_tool.py:37 | a column is selected exactly when it has the requested dtype class, and no column is selected twice |
| CustomTool.NonNumericColumnUntouched | crew_ai_part/src/renalyser/tools/custom_tool.py:31-35 | the numeric loop leaves every non-numeric column as deduplication left it |
| CustomTool.CleanCells | crew_ai_part/src/renalyser/tools/custom_tool.py:30-42 | a present cell and every cell of an `Other` column are unchanged; a missing numeric cell becomes sum/count of the column's numbers, or stays missing if there are none; a missing object cell becomes "Unknown" |
| CustomTool.NumericStageLog | crew_ai_part/src/renalyser/tools/custom_tool.py:24-35 | after the numeric loop the log holds the duplicate count, plus each numeric column's missing count exactly when it is positive |
| CustomTool.CategoricalStageLog | crew_ai_part/src/renalyser/tools/custom_tool.py:37-42 | the categorical loop keeps every earlier entry and adds each object column's missing count exactly when it is positive |
| CustomTool.CategoricalKeysFresh | crew_ai_part/src/renalyser/tools/custom_tool.py:42 | no categorical key is in the log before the categorical loop starts |
| CustomTool.CleanLog | crew_ai_part/src/renalyser/tools/custom_tool.py:24-42 | the log always holds "Removed Duplicates" = rows before minus rows after (never negative); it holds each numeric or object column's missing count exactly when it is positive, under that column's key; it holds no other key |
| CustomTool.CleanWellFormed | crew_ai_part/src/renalyser/tools/custom_tool.py:23-44 | the cleaned table is again well formed: one label per row, rectangular, each cell fitting its column's dtype class |
| CustomTool.CleanAllMissingNumeric | crew_ai_part/src/renalyser/tools/custom_tool.py:32-35 | a numeric column with no number after deduplication stays missing, yet its full row count is logged under the numeric key |
| CustomTool.CleanFillWithinRange | crew_ai_part/src/renalyser/tools/custom_tool.py:34 | imputation keeps every number of a numeric column within any bounds of the deduplicated column's numbers |
| CustomTool.CleanDataset | crew_ai_part/src/renalyser/tools/custom_tool.py:23-44 | the step-by-step procedure returns exactly `Clean` of its input |
| CustomTool.ImputeColumns | crew_ai_part/src/renalyser/tools/custom_tool.py:31-35 | the column loop ends in exactly the state that `ImputePass` specifies |
| CleanExamples.ThreeRowsDeduplicated | crew_ai_part/src/renalyser/tools/custom_tool.py:26 | in the three-row example, the rows labelled 0 and 2 survive deduplication |
| CleanExamples.ThreeRowsCleaned | crew_ai_part/src/renalyser/tools/custom_tool.py:23-44 | the three-row example cleans to two rows, (x, s) and (x, "Unknown"), labelled 0 and 2 |
| CleanExamples.ThreeRowsLog | crew_ai_part/src/renalyser/tools/custom_tool.py:24-42 | the three-row example logs exactly 1 removed duplicate, 1 numeric fill in a and 1 categorical fill in b |
| CleanExamples.NoColumnsKeepsRows | crew_ai_part/src/renalyser/tools/custom_tool.py:25-28 | two equal rows without columns both survive cleaning, and the log is just "Removed Duplicates" = 0 |
| CleanExamples.ImputationCanRepeatRows | crew_ai_part/src/renalyser/tools/custom_tool.py:26-35 | two different rows (x) and (missing) both clean to (x), so the cleaned table can hold duplicates |
| Crew.CrewError.Class | crew_ai_part/src/renalyser/crew.py:66-74 | run_task raises `IndexError` exactly for an agent without tools, and `ValueError` for an unknown task or an uncallable tool |
| Crew.CrewError.Message | crew_ai_part/src/renalyser/crew.py:67-74 | the message of each `ValueError` of run_task contains the requested task name in quotes; the `IndexError` message is "list index out of range" |
| Crew.FindTask | crew_ai_part/src/renalyser/crew.py:66 | the lookup finds nothing exactly when no task has the name; otherwise it returns the position of the first task with that name |
| Crew.FirstMatchUnique | crew_ai_part/src/renalyser/crew.py:66 | there is only one first matching task |
| Crew.Call | crew_ai_part/src/renalyser/crew.py:14-26 | the validation function yields the validator's text for the dataset, and the cleaning function yields `Clean` of the dataset |
| Crew.Dispatch | crew_ai_part/src/renalyser/crew.py:69-74 | the call succeeds exactly when the agent's first tool exists with a callable function, and then returns that function's output; otherwise the error names the task, and it is an `IndexError` exactly when the agent has no tools |
| Crew.ExtendedCrew.RunTask | crew_ai_part/src/renalyser/crew.py:64-74 | `TaskNotFound` with the requested name exactly when no task has that name; otherwise the result is the dispatch through the agent of the first matching task |
| Crew.CrewConfiguration | crew_ai_part/src/renalyser/crew.py:18-79 | the crew has two tasks, "Validate Dataset" and "Clean Dataset", in that order and with different names; each task's agent holds exactly one tool, which is present and callable and wraps the validation and the cleaning function respectively; the crew's agents are those two agents |
| Crew.ValidateDatasetDispatch | crew_ai_part/src/renalyser/crew.py:50-55 | with the configured crew, "Validate Dataset" returns the validation tool's text |
| Crew.CleanDatasetDispatch | crew_ai_part/src/renalyser/crew.py:57-62 | with the configured crew, "Clean Dataset" returns `Clean` of the dataset |
| Crew.UnknownTaskRejected | crew_ai_part/src/renalyser/crew.py:76-79 | with the configured crew, every other name is rejected with `TaskNotFound` naming it |
| Crew.FrobnicateRejected | crew_ai_part/src/renalyser/crew.py:66-68 | "Frobnicate" is rejected with an error whose message quotes it |

## Left out

- `DatasetValidationAgent.validate_dataset` (tools/custom_tool.py:4-20) is an HTTPS request to a hosted chat-completion API built around a pandas `describe()` summary. It becomes the parameter `validate` of `Crew.Call` and `Crew.ExtendedCrew.RunTask`. The request, the summary and the "Error during dataset validation" fallback string are not modelled.
- `main.py` is not part of this model. It holds the Streamlit UI, the MongoDB reads and writes, and the MD5 fingerprint of the CSV text.
- `test.py` is not part of this model. It only opens a MongoDB connection.
- The crewAI `Agent`, `Task` and `Crew` classes appear only as records with the fields `run_task` reads. `role`, `goal`, `backstory` and `expected_output` are dropped. `os.getenv` is not modelled.
- `**kwargs` is modelled as the single `dataset` argument that every caller passes. A call without it, which would raise `TypeError`, is not modelled.
- Floating point: `mean()` is taken in exact `real` arithmetic, so rounding and NaN/inf inputs are not modelled. A NaN mean appears only as the all-missing case, where the cells stay missing.
- Dtype inference from CSV, and columns whose dtype changes, are not modelled. Each column carries a fixed dtype class, and the cells are assumed to fit it.
- Column names are assumed distinct, as `WellFormed` requires. pandas would allow duplicate labels.
- The insertion order of the log dict is not modelled. The log is a `map`.
- A `dataset` argument that is not a well-formed table (any other Python value) is outside the model; `run_task` requires a well-formed one.
