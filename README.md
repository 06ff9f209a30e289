# To-do list manager: a Dafny model of its task list

`TODO.py` is a small tkinter to-do list. Its `ToDoApp` object keeps the tasks in
`self.tasks`, a list of records `{text, status, due}`, and changes that list in place
through five operations: add, toggle, delete, edit and sort. After every change it
writes the whole list to `tasks.json` and redraws one row per task.

This project models that list and those operations, and proves what they do:

- `tasks.dfy` (module `Tasks`): the task record and the edit each operation makes to
  one element of the list. It also holds Python's `str.strip()`, with the exact set of
  characters that `str.isspace()` treats as whitespace.
- `ordering.dfy` (module `Ordering`): the order the list is sorted by. This is
  Python's `<=` on strings, compared code point by code point, and on the key tuple
  `(status == "done", due)`, where `False < True`. Both are proved to be total
  orders: reflexive, total, antisymmetric and transitive.
- `sorting.dfy` (module `Sorting`): the stable sort. `SortByKey` is an insertion
  sort. It is proved ordered, a permutation, and stable: the tasks of each key keep
  their relative order. `StableSortIsUnique` proves that any stable sort by this key
  gives the same result, so the model agrees with Python's `list.sort`, whatever
  algorithm that uses. Idempotence follows.
- `render.dfy` (module `Render`): the row-building loop of `refresh_tasks`. It decides
  which tasks get a row, which list index each row's callbacks are bound to, the
  label text, the colour and the checkbox state.
- `todo_app.dfy` (module `TodoApp`): the class `ToDoApp`. Its fields are the list,
  the filter state, the entry text, the drawn rows and a ghost log of what
  `save_tasks` wrote. Its methods are the operations, each followed by save and
  refresh as in the source. Its invariant `Valid()` says that between user actions
  the list is in sorted order and the rows show it.

Two behaviours of the code are modelled as written:

- **The status filter does nothing.** `filter_status` is set to `"all"` at
  TODO.py:16 and never assigned again; the menu only changes `filter_var`. So the
  guard at TODO.py:103 never skips a task. In the model `filterStatus` is a constant
  `"all"`. `MenuChoiceIsIgnored` and `SelectFilter` prove that picking an option
  changes nothing on screen. `SelectedTaskHasRow` and `RowsAreBoundInside` show what
  the guard would select if the filter were set.
- **The file is written before the list is re-sorted.** Each operation calls
  `save_tasks` before `refresh_tasks`, so the file holds the mutated but unsorted list.
  The operations' contracts state the exact snapshot written.

Some of the code's behaviour is easy to misread; the model follows the code:

- `toggle_status` maps any status other than `"in-progress"` to `"in-progress"`.
- `edit_task` stores the new text unstripped, so it may be all whitespace.
- Strings in `YYYY-MM-DD` form sort chronologically. But whether `strptime` also
  accepts other forms, such as unpadded months, is decided by the library, which this
  model leaves open.
- Toggling a task twice restores its status, but not always the order of the list.
  `ToggleTwiceCanReorder` exhibits two tasks with equal keys whose order swaps.
- Deleting or editing a task never reorders the rest. `DeleteTask` and `EditTask`
  prove that the re-sort leaves the list as it was written.

## Model

| member | source | states |
|---|---|---|
| `Tasks.Toggled` | TODO.py:76 | the new status is "done" exactly when the old one is "in-progress", and "in-progress" otherwise |
| `Tasks.ToggledTwice` | TODO.py:76 | toggling twice restores a status that is "in-progress" or "done" |
| `Tasks.ToggleAt` | TODO.py:75-76 | toggling element i changes only its status, to the toggled value; the length and all other elements are unchanged |
| `Tasks.ToggleAtTwice` | TODO.py:75-76 | toggling the same element twice restores the list when its status is one of the two |
| `Tasks.EditAt` | TODO.py:88-89 | editing element i replaces its text only; status, due and all other elements are unchanged |
| `Tasks.RemoveAt` | TODO.py:82 | deleting element i drops the length by one, keeps the others in their relative order, and removes exactly that element from the multiset |
| `Tasks.IsSpace` | TODO.py:50 | the whitespace `strip()` removes: it includes space, tab, newline and carriage return, excludes every ASCII letter and digit, and excludes the zero-width space U+200B |
| `Tasks.TrimStart` | TODO.py:50 | the result is a suffix of the input, everything dropped is whitespace, and it does not start with whitespace |
| `Tasks.TrimEnd` | TODO.py:50 | the result is a prefix of the input, everything dropped is whitespace, and it does not end with whitespace |
| `Tasks.Strip` | TODO.py:50 | the stripped text is empty exactly when the input is all whitespace, and otherwise starts and ends with non-whitespace |
| `Tasks.StripExact` | TODO.py:50 | stripping a text that is surrounded by whitespace and starts and ends with non-whitespace gives back exactly that text |
| `Tasks.StripIdempotent` | TODO.py:50 | stripping twice is stripping once |
| `Ordering.LexLe` | TODO.py:94 | Python's `<=` on strings: only the empty string is <= the empty string, and a non-empty string is <= only strings whose first character is no smaller |
| `Ordering.PrefixIsLexLe` | TODO.py:94 | a string is <= every string it is a prefix of |
| `Ordering.FirstDifferenceIsLexLe` | TODO.py:94 | a string is <= another when they agree up to a position where the first has the smaller character |
| `Ordering.LexLeIsPrefixOrFirstDifference` | TODO.py:94 | conversely, `a <= b` holds only when `a` is a prefix of `b` or, at the first differing position, `a` has the smaller character |
| `Ordering.LexLeReflexive` | TODO.py:94 | every string is <= itself |
| `Ordering.LexLeTotal` | TODO.py:94 | any two strings are comparable |
| `Ordering.LexLeAntisymmetric` | TODO.py:94 | two strings that are <= each other are equal |
| `Ordering.LexLeTransitive` | TODO.py:94 | the string order is transitive |
| `Ordering.KeyLe` | TODO.py:94 | Python's `<=` on the key tuple: an unfinished task's key is below a finished one's, never the reverse, and keys with the same flag compare by the due string |
| `Ordering.KeyLeReflexive` | TODO.py:94 | the key order `(status == "done", due)` is reflexive |
| `Ordering.KeyLeTotal` | TODO.py:94 | any two keys are comparable |
| `Ordering.KeyLeAntisymmetric` | TODO.py:94 | two keys that are <= each other are equal |
| `Ordering.KeyLeTransitive` | TODO.py:94 | the key order is transitive |
| `Sorting.KeyOf` | TODO.py:94 | the key of a task is the flag `status == "done"` and its due string; the text plays no part |
| `Sorting.WithKey` | TODO.py:94 | the tasks picked out for a key come from the list and have that key |
| `Sorting.Insert` | TODO.py:94 | inserting adds exactly the inserted task to the multiset |
| `Sorting.SortByKey` | TODO.py:94 | the sort is a permutation of its input |
| `Sorting.InsertSorted` | TODO.py:94 | inserting into an ordered list keeps it ordered |
| `Sorting.SortByKeySorted` | TODO.py:94 | the sorted list puts unfinished tasks before finished ones, each group in order of due string |
| `Sorting.InsertWithKey` | TODO.py:94 | insertion keeps the tasks of every key in order, with the inserted task first among those of its key |
| `Sorting.SortByKeyStable` | TODO.py:94 | the sort is stable: for every key, the tasks with that key appear in the same relative order as in the input |
| `Sorting.SortByKeyIsStableSort` | TODO.py:94 | the sort's result is ordered, a permutation of the input, and stable |
| `Sorting.StableOrderIsUnique` | TODO.py:94 | two ordered lists that list the tasks of every key in the same order are equal |
| `Sorting.StableSortIsUnique` | TODO.py:94 | every stable sort of a list by this key equals `SortByKey` of it, whichever algorithm produces it |
| `Sorting.SortedIsFixpoint` | TODO.py:94 | sorting an already ordered list leaves it unchanged |
| `Sorting.SortByKeyIdempotent` | TODO.py:94 | sorting twice is sorting once |
| `Sorting.SortedRemoveAt` | TODO.py:82 | deleting a task from an ordered list leaves it ordered |
| `Sorting.SortedEditAt` | TODO.py:89 | replacing a task's text in an ordered list leaves it ordered |
| `Sorting.InsertStep` | TODO.py:94 | a task is placed in front of the first task of a list when its key is no larger, and behind it otherwise |
| `Sorting.SortPair` | TODO.py:94 | two tasks come out in key order, and keep their order when the keys tie |
| `Sorting.InsertBetween` | TODO.py:94 | a task whose key is above the first of two tasks and no larger than the second is placed between them |
| `Sorting.SortThree` | TODO.py:94 | three tasks a, b, c with c's key below both others and a's no larger than b's sort to c, a, b |
| `Sorting.SortExample` | TODO.py:94 | A (unfinished, 2024-06-01), B (done, no date), C (unfinished, no date) sort to C, A, B |
| `Sorting.ToggleTwiceCanReorder` | TODO.py:75-78 | toggling an unfinished task and then toggling it again at its new position puts it behind an equal-key task it used to precede |
| `Render.DueText` | TODO.py:114 | the due part of the label is the due string when that is non-empty, and "N/A" when it is empty |
| `Render.Label` | TODO.py:114 | the label is the task text followed by `  [Due: `, the due text and `]` |
| `Render.ColourOf` | TODO.py:113 | the colour is green exactly when the status is "done" |
| `Render.RowFor` | TODO.py:109-121 | a row is bound to its list index, shows the task's label, starts ticked exactly when the task is done, and is green exactly when ticked |
| `Render.Shown` | TODO.py:103-104 | a task gets a row exactly when the filter is "all" or its status equals the menu's option |
| `Render.RowsOf` | TODO.py:102-104 | the rows are no more than the tasks, and exactly as many when the filter is "all" |
| `Render.RenderRows` | TODO.py:102-114 | the loop draws the rows `RowsOf` specifies; with the filter at "all" there is one row per task, row i bound to index i, showing task i |
| `Render.EveryTaskHasItsRow` | TODO.py:103 | with the filter at "all" the guard never skips: row i is bound to i and shows task i's label, colour and checkbox state |
| `Render.MenuChoiceIsIgnored` | TODO.py:103 | with the filter at "all" the option chosen in the menu makes no difference to the rows |
| `Render.RowsAreBoundInside` | TODO.py:110-121 | every row's bound index is inside the list, the row shows the task at that index, and that task passed the guard |
| `Render.RowIndicesIncrease` | TODO.py:102 | rows appear in list order, with strictly increasing indices |
| `Render.SelectedTaskHasRow` | TODO.py:103-104 | a task whose status equals the menu's option always gets a row |
| `Render.FilterExample` | TODO.py:102-114 | for C, A, B with "done" chosen, all three rows are drawn; had the filter been "done", only B's row would be, at index 2 |
| `TodoApp.ToDoApp.constructor` | TODO.py:11-38 | the app starts from the stored list, or from an empty one when there is no file, sorted and drawn, with nothing written |
| `TodoApp.ToDoApp.LoadTasks` | TODO.py:44-47 | the list becomes the stored one when the file exists and is otherwise unchanged |
| `TodoApp.ToDoApp.SaveTasks` | TODO.py:40-42 | the file now holds the current list |
| `TodoApp.ToDoApp.SortTasks` | TODO.py:93-94 | the list is replaced by a stable sort of itself |
| `TodoApp.ToDoApp.RefreshTasks` | TODO.py:96-122 | the list is sorted and the rows are redrawn from it |
| `TodoApp.ToDoApp.SelectFilter` | TODO.py:30-31 | picking a menu option redraws, but the list and the rows stay the same |
| `TodoApp.ToDoApp.AddTask` | TODO.py:49-73 | empty stripped text, or a non-empty date the parser rejects, gives its warning and leaves the list, rows, entry and file untouched. Otherwise the stripped text is appended as "in-progress" with the given or empty date, the entry is cleared, and exactly that list is written; the list then re-sorts, one longer, with the old tasks plus the new one |
| `TodoApp.ToDoApp.AddStripped` | TODO.py:51-73 | given the stripped text, the same two warnings and the same unchanged state on a warning; otherwise the same append, write and re-sort as `AddTask` |
| `TodoApp.ToDoApp.AppendTask` | TODO.py:70-73 | the new task is appended last, the entry cleared, exactly the list with the task last is written, and the list then re-sorts to the old tasks plus the new one |
| `TodoApp.ToDoApp.ToggleStatus` | TODO.py:75-78 | the list with only the status of task index toggled is written, then sorted |
| `TodoApp.ToDoApp.DeleteTask` | TODO.py:80-84 | unconfirmed, nothing changes and nothing is written, for any index; confirmed, the list without task index is written and stays in that order |
| `TodoApp.ToDoApp.EditTask` | TODO.py:86-91 | a cancelled or empty answer changes nothing; otherwise the list with only task index's text replaced, unstripped, is written and stays in that order |
| `TodoApp.ToDoApp.RowsAreInRange` | TODO.py:102-122 | between actions there is one row per task, row i bound to index i, so every callback index is valid |

## Left out

- tkinter: windows, frames, buttons, the entry and option-menu widgets, `mainloop` and
  the destruction of old rows. The entry's text, the menu's option and the drawn rows
  are kept as plain fields. Widget layout (sizes, padding) is not modelled.
- Dialogs: `messagebox.showwarning` and `showerror` become the returned
  `AddOutcome`. `simpledialog.askstring` becomes an `Option<string>` parameter.
  `messagebox.askyesno` becomes a `bool` parameter. The edit dialog's initial value
  only affects what the user sees, so it is not modelled.
- File I/O and JSON: `json.dump` becomes a ghost log of the lists written.
  `json.load` and `os.path.exists` become the constructor's `Option<seq<Task>>` (an
  arbitrary stored list, or none). The round trip of the JSON encoding is the
  library's, and is not part of this model.
- `datetime.strptime(due, "%Y-%m-%d")`: the accepted format is decided by the Python
  library, which is not part of this model. It is the parameter
  `validDate: string -> bool` of `AddTask`.
- Malformed data: every task is assumed to have all three string fields. So
  `.get("due", "")` on TODO.py:94 is `due`, and the `KeyError` that `task['due']` on
  TODO.py:114 could raise does not arise. A malformed data file is not modelled.
- Out-of-range indices: `ToggleStatus` and `EditTask` require `index < |tasks|`, and
  `DeleteTask` requires it only once the deletion is confirmed, since an unconfirmed
  delete touches no element. The source raises `IndexError` in exactly those cases and
  never handles it. `RowsAreInRange` shows that every index bound to a drawn row meets
  the requirement.
- `Row.checked` is the value the row's `BooleanVar` is created with. What Tk shows
  can differ, because that variable is a loop local that Python may collect once the
  loop moves on, and tkinter then deletes the Tcl variable behind the checkbox. That
  lifetime is not modelled.
- Python strings can hold lone surrogates; Dafny `char` holds only Unicode scalar
  values.
