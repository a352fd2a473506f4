# Task list of the PyQt6 task manager, in Dafny

`TaskManager.py` is a small desktop window. A user types a task name, picks a
priority (`Низкий`, `Средний` or `Высокий`) and a deadline, and adds the task
to a list widget. Each row of the list is display text of the form

    name | Приоритет: priority | Дедлайн: deadline

Everything the program later does with a task, it reads back out of that text:

- `save_tasks` splits each row on `" | "` and `": "` to build the
  `{task, priority, deadline}` objects it writes to `tasks.json`.
- `sort_by_priority` takes as its key the label index of
  `x.split('|')[1].split(': ')[1].strip()`.
- `sort_by_deadline` takes as its key `x.split('|')[-1].split(': ')[1].strip()`.
- `load_tasks` rebuilds the rows from the decoded objects.

The model has six modules.

- `Wrappers` holds `Option`, `Result` and `Outcome`.
- `PyStr` holds Python's `str.find`, `str.split`, `str.strip` (with
  Python's exact set of whitespace characters) and string `<=`. It proves
  what these compute: split and join round-trip, strip removes exactly the
  outer whitespace, and `<=` is a total order.
- `StableSort` holds `list.sort(key=…)` as a stable insertion sort. It
  proves the sort returns a sorted permutation, keeps rows with equal keys
  in order, and is the only such result.
- `IsoDate` holds the `yyyy-MM-dd` dates the deadline editor produces. It
  proves that string order on them is date order.
- `TaskRows` holds the row format, the three parsers, the save record loop,
  the load row loop and the two sorts as functions. It proves that each
  parser recovers what the format put in, that save followed by load gives
  back the same rows, and that the sorts meet their specification. It also
  shows what a `" | "` inside a task name does: depending on the text after
  it, saving and the priority sort either raise `IndexError` or silently read
  the wrong fields.
- `Manager` holds class `TaskManager`. Its fields are the list's rows, its
  current row and the text of the name input. Each button handler is a
  method that updates them; a warning dialog becomes a `Fail` outcome.

## Model

| member | source | states |
|---|---|---|
| PyStr.Find | TaskManager.py:177 | the position found is a match at or after the start, with no match before it; no position means no match anywhere from the start |
| PyStr.Split | TaskManager.py:177 | `str.split(sep)` yields at least one part, joining the parts with the separator gives back the string, and no part contains the separator |
| PyStr.SplitCutsFirst | TaskManager.py:177 | each cut `split` makes is at the first occurrence of the separator after the previous cut, so overlapping occurrences such as those of `" \| "` in `" \| \| "` are cut as Python cuts them |
| PyStr.SplitJoin | TaskManager.py:177 | splitting the join of parts cut at first occurrences gives those parts back, so the split of a string is the only such sequence of parts that joins to it |
| PyStr.SplitNoMatch | TaskManager.py:177 | text that holds no occurrence of the separator splits into itself alone |
| PyStr.SplitFirstCut | TaskManager.py:210 | when the separator after `a` is its first occurrence in `a + sep + b`, the split is `a` followed by the parts of `b` |
| PyStr.SplitAt | TaskManager.py:210 | splitting `a + sep + b` gives `a` followed by the parts of `b` when some character of the separator occurs neither in `a` nor earlier in the separator (true of `\|` in `" \| "` and of `:` in `": "`) |
| PyStr.SplitWhole | TaskManager.py:177 | text in which some character of the separator never occurs splits into itself alone |
| PyStr.SplitLast | TaskManager.py:196 | the last part of `s + [c] + t` split on `c` is `t` when `t` has no `c` (the `[-1]` index) |
| PyStr.TrimStart | TaskManager.py:135 | the left half of `strip()`; TrimStartSpec and TrimStartPadded state what it removes |
| PyStr.TrimEnd | TaskManager.py:135 | the right half of `strip()`; TrimEndSpec and TrimEndPadded state what it removes |
| PyStr.Strip | TaskManager.py:135 | `str.strip()` with Python's whitespace set; StripSpec, StripStripped and StripPadded state what it leaves |
| PyStr.TrimStartSpec | TaskManager.py:135 | the left trim is a suffix of the input, what it removed is whitespace, and it does not start with whitespace |
| PyStr.TrimEndSpec | TaskManager.py:135 | the right trim is a prefix of the input, what it removed is whitespace, and it does not end with whitespace |
| PyStr.StripSpec | TaskManager.py:135-139 | `strip()` leaves no outer whitespace, and it is empty exactly when the input is all whitespace (the `if task_name` test) |
| PyStr.StripStripped | TaskManager.py:177 | `strip()` leaves a string without outer whitespace unchanged |
| PyStr.StripPadded | TaskManager.py:177 | `strip()` of a stripped value padded with whitespace on both sides is that value |
| PyStr.TrimStartPadded | TaskManager.py:135 | trimming the left of whitespace followed by a non-space start removes exactly that whitespace |
| PyStr.TrimEndPadded | TaskManager.py:135 | trimming the right of a non-space end followed by whitespace removes exactly that whitespace |
| PyStr.StrLe | TaskManager.py:196 | Python's `<=` on `str`, by code point with a prefix first; the StrLe lemmas below show it is a total order |
| PyStr.StrLeCommonPrefix | TaskManager.py:196 | a common prefix does not change the string order of two keys |
| PyStr.StrLeReflexive | TaskManager.py:196 | every deadline key is `<=` itself |
| PyStr.StrLeTransitive | TaskManager.py:196 | string `<=` on keys is transitive |
| PyStr.StrLeTotal | TaskManager.py:196 | any two keys are comparable by string `<=` |
| PyStr.StrLeAntisymmetric | TaskManager.py:196 | keys `<=` each other both ways are equal |
| StableSort.Insert | TaskManager.py:175-179 | one step of the stable sort: the row goes before the first row whose key is not smaller; InsertPermutes, InsertSorted and InsertTies state its properties |
| StableSort.Sort | TaskManager.py:175-179 | `list.sort(key=…)` as a stable insertion sort; SortPermutes, SortSorted, SortStable and SortUnique state its properties |
| StableSort.InsertPermutes | TaskManager.py:175-179 | inserting one row adds exactly that row to the multiset of rows |
| StableSort.SortPermutes | TaskManager.py:175-179 | the sort is a permutation of its input |
| StableSort.InsertSorted | TaskManager.py:175-179 | inserting into a sorted list, under a total preorder, keeps it sorted |
| StableSort.SortSorted | TaskManager.py:175-179 | under a total preorder the result is in non-decreasing key order |
| StableSort.InsertTies | TaskManager.py:175-179 | inserting a row puts it ahead of every row with the same key already present |
| StableSort.SortStable | TaskManager.py:175-179 | rows with equal keys keep their relative order (Python's sort is stable) |
| StableSort.SortUnique | TaskManager.py:175-179 | any sorted list that keeps the order of each group of equal keys is exactly the insertion sort's result, so the model matches every stable sort |
| StableSort.SortedTiesEqual | TaskManager.py:175-179 | two sorted lists with the same rows in each group of equal keys are equal |
| StableSort.TiesHead | TaskManager.py:175-179 | the first row of a list is first among those with its own key |
| StableSort.TiedWithFirst | TaskManager.py:175-179 | in a sorted list, every key present is at or above the first row's key |
| StableSort.SortThreeRotated | TaskManager_tests.py:43-57 | three rows whose first has the greatest key sort to second, third, first |
| StableSort.SortThreeReversed | TaskManager_tests.py:59-73 | three rows in strictly decreasing key order sort into reverse order |
| IsoDate.StrLeIsChronological | TaskManager.py:196 | for two `yyyy-MM-dd` dates, string `<=` holds exactly when the first is on or before the second by year, month and day |
| IsoDate.IsoDateIsPlain | TaskManager.py:137 | a `yyyy-MM-dd` date contains no `\|` and no `:` and has no outer whitespace |
| IsoDate.StrLeIsNumeric | TaskManager.py:196 | on equal-length strings differing only in digits, string `<=` is numeric `<=` |
| IsoDate.DateValue | TaskManager.py:137 | the digits of a date read as one number are year, month and day in fixed places |
| TaskRows.Format | TaskManager.py:145-147 | the row text `add_task` shows and `load_tasks` rebuilds (lines 231-234); ParseFormat, PriorityKeyFormat, DeadlineKeyFormat and RecordRoundTrip show the parsers invert it |
| TaskRows.ParseRecord | TaskManager.py:210-214 | the fields `save_tasks` reads from one row, or `IndexError`; ParseFormat, BarInNameBreaksSave and ColonInNameMisparsesSave state what it returns |
| TaskRows.FieldValue | TaskManager.py:177 | `.split(': ')[1].strip()` of one field, or `IndexError`; FieldValueOf and NoFieldValue state what it returns |
| TaskRows.PriorityKey | TaskManager.py:176-177 | the priority sort key; PriorityKeyFormat, BarInNameBreaksPriorityKey and ColonInNameMisranks state what it returns |
| TaskRows.DeadlineKey | TaskManager.py:196 | the deadline sort key; DeadlineKeyFormat states what it returns |
| TaskRows.RowOf | TaskManager.py:231-234 | the row `load_tasks` builds from one object, or the `KeyError` of the first missing key; LoadRows and LoadRecordObjects state what the loop makes of it |
| TaskRows.SaveRecords | TaskManager.py:207-216 | the records `save_tasks` builds, or the first row's error; SaveRecordRows and LoadSaveRoundTrip state what it returns |
| TaskRows.PrioritySorted | TaskManager.py:171-179 | the result of the priority sort, or the first key error; PrioritySortedSpec states it |
| TaskRows.DeadlineSorted | TaskManager.py:192-196 | the result of the deadline sort, or the first key error; DeadlineSortedSpec and DeadlineSortIsChronological state it |
| TaskRows.IndexOf | TaskManager.py:176 | `list.index` gives the first position holding the label, and `ValueError` exactly when the label is absent |
| TaskRows.Collect | TaskManager.py:171-179 | computing every row's key succeeds with one key per row, or fails with the error of the first failing row; it fails exactly when some row fails |
| TaskRows.CollectStops | TaskManager.py:171-179 | once a prefix has failed, the rows after it change nothing |
| TaskRows.LoadRows | TaskManager.py:229-235 | the rows a load adds are the objects' rows in order; they stop at the first object lacking a key, which is reported |
| TaskRows.LoadRowsStops | TaskManager.py:230-235 | once an object has failed, the objects after it change nothing |
| TaskRows.ParseFormat | TaskManager.py:210-214 | the save parser recovers name, priority and deadline from a row built by `add_task`, for a name without `\|` and priority and deadline without `\|` or `:` |
| TaskRows.PriorityKeyFormat | TaskManager.py:175-179 | the priority key of such a row is the label index of its priority |
| TaskRows.DeadlineKeyFormat | TaskManager.py:196 | the deadline key of a row is its deadline, whatever the name and priority contain |
| TaskRows.BarParts | TaskManager.py:177 | split on `\|`, a row whose name and priority lack `\|` has at least two parts, the second being the priority field |
| TaskRows.LastBarPart | TaskManager.py:196 | the last `\|` part of a row is the deadline field |
| TaskRows.AfterColon | TaskManager.py:213-214 | a field without further `:` splits on `": "` into its name and its value |
| TaskRows.FieldValueOf | TaskManager.py:177 | the key expression's `split(': ')[1].strip()` returns the field's value |
| TaskRows.NoFieldValue | TaskManager.py:177 | a field without `:` makes the `[1]` index raise `IndexError` |
| TaskRows.FieldNamesArePlain | TaskManager.py:146 | the field names contain no `\|` and no `:` |
| TaskRows.LabelsArePlain | TaskManager.py:92 | the priority labels contain no `\|` or `:` and have no outer whitespace |
| TaskRows.RecordRoundTrip | TaskManager.py:203-235 | the row `load_tasks` makes from a well-formed record is parsed back to that record by `save_tasks`, and both sort keys read its priority and deadline |
| TaskRows.LoadSaveRoundTrip | TaskManager.py:203-235 | loading saved well-formed records adds one row per record without failure, and saving those rows gives the same records |
| TaskRows.LoadRecordObjects | TaskManager.py:230-235 | loading the objects of well-formed records adds exactly their rows and reports no failure |
| TaskRows.SaveRecordRows | TaskManager.py:207-216 | saving the rows of well-formed records gives back those records |
| TaskRows.BarInNameBreaksSave | TaskManager.py:210-214 | a name `x \| y` where `x` has no `\|` and `y` has neither `\|` nor `:` makes `save_tasks` raise `IndexError` |
| TaskRows.BarInNameBreaksPriorityKey | TaskManager.py:176-177 | for the same names the priority key raises `IndexError` |
| TaskRows.ColonInNameMisparsesSave | TaskManager.py:210-214 | a name `x \| y: z` (no `\|` in `x`; no `\|` or `:` in `y`, `z` and the priority) is saved without error as the wrong record: task `x`, priority `z`, and the priority as deadline |
| TaskRows.ColonInNameMisranks | TaskManager.py:176-177 | a name `x \| y: l` gives the row the priority key of `l`, whatever priority it was added with |
| TaskRows.MisparseExample | TaskManager.py:210-214 | the name `a \| b: c` is saved as task `a` with priority `c` |
| TaskRows.MisrankExample | TaskManager.py:176-177 | a row added as high priority under the name `a \| b: Низкий` has the rank of low |
| TaskRows.SecondBarPart | TaskManager.py:177 | with such a name, the second `\|` part is the name's tail rather than the priority field |
| TaskRows.PriorityLeIsTotalPreorder | TaskManager.py:175-179 | comparing rows by priority rank is a total preorder |
| TaskRows.DeadlineLeIsTotalPreorder | TaskManager.py:196 | comparing rows by deadline text is a total preorder |
| TaskRows.FromRows | TaskManager.py:171-181 | every row of a permutation comes from the original rows |
| TaskRows.PrioritySortedSpec | TaskManager.py:170-184 | sorting by priority fails exactly when some row's key fails, with the first such row's error; otherwise it is a permutation in non-decreasing rank that keeps the order of equal ranks |
| TaskRows.DeadlineSortedSpec | TaskManager.py:191-201 | sorting by deadline fails exactly when some row's key fails, with the first such row's error; otherwise it is a permutation in non-decreasing string order that keeps the order of equal deadlines |
| TaskRows.DeadlineSortIsChronological | TaskManager.py:196 | when every deadline is a `yyyy-MM-dd` date, the deadline sort succeeds and puts the rows in date order |
| TaskRows.PrioritySortExample | TaskManager_tests.py:43-57 | rows with priorities high, low, medium sort to low, medium, high |
| TaskRows.PrioritiesRotated | TaskManager_tests.py:43-57 | rows with ranks 2, 0, 1 sort to the second, third, first |
| TaskRows.DeadlineSortExample | TaskManager_tests.py:59-73 | rows due 2024-12-31, 2024-11-30, 2024-10-31 sort to the earliest first |
| TaskRows.ExampleDates | TaskManager_tests.py:59-73 | the example dates are plain, stripped and strictly decreasing |
| TaskRows.ExampleDatesOrder | TaskManager_tests.py:59-73 | the example dates compare as strings in strictly decreasing order |
| TaskRows.DeadlinesDescending | TaskManager_tests.py:59-73 | rows with strictly decreasing plain deadlines sort into reverse order |
| Manager.Saved | TaskManager.py:203-216 | what the save ending a handler reports: nothing, or the error of the first row it cannot parse; Manager.TaskManager.SaveAndReport is proved to return it |
| Manager.Without | TaskManager.py:160 | `takeItem(r)` removes exactly the row at `r`, keeps the others in order, and takes one copy of that row from the multiset |
| Manager.TaskManager.constructor | TaskManager.py:66-83 | the window starts with an empty input and no current row, and its rows are what loading the task file adds |
| Manager.TaskManager.AddTask | TaskManager.py:130-151 | a name that is all whitespace is refused with nothing changed; otherwise the row of the stripped name is appended, the input is cleared, and the save's outcome is returned |
| Manager.TaskManager.DeleteTask | TaskManager.py:153-163 | with no current row it is refused with nothing changed; otherwise the current row is removed, the others keep their order, the row that moved into its place (else the new last row, else none) becomes current, and the save's outcome is returned |
| Manager.TaskManager.SortByPriority | TaskManager.py:165-184 | the rows become the stable priority sort and are saved; if a key fails, its error is reported and nothing changes |
| Manager.TaskManager.SortByDeadline | TaskManager.py:186-201 | the rows become the stable deadline sort and are saved; if a key fails, its error is reported and nothing changes |
| Manager.TaskManager.SortBy | TaskManager.py:170-184 | the body both sort handlers share: keys first, then clear, add the sorted rows and save |
| Manager.TaskManager.CollectKeys | TaskManager.py:171-179 | the key loop computes every row's key in order, or stops with the first error |
| Manager.TaskManager.SaveTasks | TaskManager.py:203-216 | the record loop gives one record per row, or the first row's parse error |
| Manager.TaskManager.SaveAndReport | TaskManager.py:182-184 | the save at the end of a handler reports success or the first parse error |
| Manager.TaskManager.LoadTasks | TaskManager.py:221-241 | a missing or undecodable file reports its error and changes nothing; otherwise the list holds the rows that loading adds, and a missing key is reported |
| Manager.TaskManager.LoadObjects | TaskManager.py:229-235 | clearing the list and looping over the objects leaves exactly the loaded rows |

## Left out

- The Qt widgets, the layout, `init_ui` and `main` are not modelled. The window is reduced to its list rows, current row and name input.
- The message boxes are not modelled. A warning becomes a `Fail` outcome. The information box shown after a successful load is not modelled.
- Opening and writing `tasks.json` and JSON encoding and decoding are not modelled. The decoded file is the `TasksFile` parameter of the constructor and of `LoadTasks`. `SaveTasks` returns the records it would write. A failure while writing the file is not modelled.
- The model assumes every value in a decoded object is a string. It does not model how `str()` formats other JSON values, or a JSON document that is not a list of objects.
- The priority combo box and the date editor are not modelled. `AddTask` takes the priority and deadline as parameters, so the model does not guarantee a label or a `yyyy-MM-dd` date. The lemmas that need these state them as preconditions.
- Manager.TaskManager.AddTask: a save error in `add_task` and `delete_task` escapes the handler as an exception. The model returns it as the handler's outcome instead, after the list has changed.
- Manager.TaskManager.DeleteTask: the current row after a removal follows Qt's rule for a single-selection list view (the row that moved up into the removed place, else the new last row, else none). That rule belongs to Qt, whose source is not part of this model.
- The sort handlers catch every exception. The model has only the exceptions the key and save code can raise (`IndexError`, `ValueError`).
- Strings are sequences of code points. Surrogates and the byte encoding of the file are not modelled.
- The sort examples from the tests are stated for any task names without `|`, rather than for the tests' fixed names.
