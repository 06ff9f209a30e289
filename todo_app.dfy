/** `ToDoApp`: the task list and the five operations that change it, each followed by
    `save_tasks` and `refresh_tasks` as in the source. The widgets are replaced by the
    values they hold (the entry text, the filter menu's option, the drawn rows), the
    dialogs by the answers they return, the date check by a predicate, and the JSON
    file by a ghost log of the snapshots written to it. */
module TodoApp {
  import opened Tasks
  import opened Sorting
  import opened Render

  /** How `add_task` ends: the task was appended, or one of its two warnings was shown. */
  datatype AddOutcome = Added | EmptyText | InvalidDate

  class ToDoApp {
    /** `self.tasks`. */
    var tasks: seq<Task>
    /** `self.filter_status`: set to "all" once and never reassigned. */
    const filterStatus: string := "all"
    /** The option shown in the filter menu, `self.filter_var`. */
    var filterChoice: string
    /** The text typed into `self.task_entry`. */
    var entry: string
    /** The rows of `self.task_frame`, as the last `refresh_tasks` drew them. */
    var rows: seq<Row>
    /** The lists `save_tasks` wrote to the data file, one per call, oldest first. */
    ghost var saved: seq<seq<Task>>

    /** Between user actions the list is in sorted order and the rows show it. */
    ghost predicate Valid()
      reads this
    {
      Sorted(tasks) && rows == RowsOf(tasks, filterStatus, filterChoice)
    }

    /** `__init__`: load the stored list (`None` when the data file does not exist),
        then draw it. Nothing is written. */
    constructor (stored: Option<seq<Task>>)
      ensures Valid()
      ensures tasks == SortByKey(if stored.Some? then stored.value else [])
      ensures filterChoice == "all"
      ensures entry == ""
      ensures saved == []
    {
      tasks := [];
      filterChoice := "all";
      entry := "";
      rows := [];
      saved := [];
      new;
      LoadTasks(stored);
      assert filterChoice == "all" && entry == "" && saved == [];
      RefreshTasks();
    }

    /** `load_tasks`: replace the list by the stored one when the data file exists. */
    method LoadTasks(stored: Option<seq<Task>>)
      modifies this`tasks
      ensures tasks == if stored.Some? then stored.value else old(tasks)
    {
      if stored.Some? {
        tasks := stored.value;
      }
    }

    /** `save_tasks`: the data file now holds the list as it is at this moment. */
    method SaveTasks()
      modifies this`saved
      ensures saved == old(saved) + [tasks]
    {
      saved := saved + [tasks];
    }

    /** `sort_tasks`: a stable sort of the list by `(status == "done", due)`. */
    method SortTasks()
      modifies this`tasks
      ensures tasks == SortByKey(old(tasks))
      ensures IsStableSortOf(tasks, old(tasks))
    {
      SortByKeyIsStableSort(tasks);
      tasks := SortByKey(tasks);
    }

    /** `refresh_tasks`: sort the list in place, then draw one row per shown task. */
    method RefreshTasks()
      modifies this`tasks, this`rows
      ensures Valid()
      ensures tasks == SortByKey(old(tasks))
    {
      SortTasks();
      SortByKeySorted(old(tasks));
      rows := RenderRows(tasks, filterStatus, filterChoice);
    }

    /** Picking an option in the filter menu sets it and redraws. Since the filter
        stays "all", neither the list nor the rows change. */
    method SelectFilter(choice: string)
      requires Valid()
      modifies this`filterChoice, this`tasks, this`rows
      ensures Valid()
      ensures filterChoice == choice
      ensures tasks == old(tasks) && rows == old(rows)
    {
      filterChoice := choice;
      SortedIsFixpoint(tasks);
      MenuChoiceIsIgnored(tasks, old(filterChoice), choice);
      RefreshTasks();
    }

    /** `add_task`. `dateAnswer` is what the due-date dialog returns (`None` when it is
        cancelled) and `validDate` is the verdict of `datetime.strptime(_, "%Y-%m-%d")`.
        On a warning nothing changes and nothing is written. Otherwise the stripped text
        is appended as an unfinished task, the entry is cleared, the list is written
        in that order and then sorted. */
    method AddTask(dateAnswer: Option<string>, validDate: string -> bool) returns (outcome: AddOutcome)
      requires Valid()
      modifies this`tasks, this`rows, this`entry, this`saved
      ensures Valid()
      ensures outcome == EmptyText <==> Strip(old(entry)) == ""
      ensures outcome == InvalidDate <==>
        Strip(old(entry)) != "" && dateAnswer.Some? && dateAnswer.value != "" && !validDate(dateAnswer.value)
      ensures outcome != Added ==>
        tasks == old(tasks) && rows == old(rows) && entry == old(entry) && saved == old(saved)
      ensures outcome == Added ==>
        var t := Task(Strip(old(entry)), InProgress, if dateAnswer.Some? then dateAnswer.value else "");
        && saved == old(saved) + [old(tasks) + [t]]
        && tasks == SortByKey(old(tasks) + [t])
        && |tasks| == |old(tasks)| + 1
        && multiset(tasks) == multiset(old(tasks)) + multiset{t}
        && entry == ""
    {
      var text := Strip(entry);
      outcome := AddStripped(text, dateAnswer, validDate);
    }

    /** The rest of `add_task` once the entry's text has been stripped to `text`: the
        two checks, then append, clear the entry, write and re-sort. */
    method AddStripped(text: string, dateAnswer: Option<string>, validDate: string -> bool)
      returns (outcome: AddOutcome)
      requires Valid()
      modifies this`tasks, this`rows, this`entry, this`saved
      ensures Valid()
      ensures outcome == EmptyText <==> text == ""
      ensures outcome == InvalidDate <==>
        text != "" && dateAnswer.Some? && dateAnswer.value != "" && !validDate(dateAnswer.value)
      ensures outcome != Added ==>
        tasks == old(tasks) && rows == old(rows) && entry == old(entry) && saved == old(saved)
      ensures outcome == Added ==>
        var t := Task(text, InProgress, if dateAnswer.Some? then dateAnswer.value else "");
        && saved == old(saved) + [old(tasks) + [t]]
        && tasks == SortByKey(old(tasks) + [t])
        && |tasks| == |old(tasks)| + 1
        && multiset(tasks) == multiset(old(tasks)) + multiset{t}
        && entry == ""
    {
      if text == "" {
        outcome := EmptyText;
      } else if dateAnswer.Some? && dateAnswer.value != "" && !validDate(dateAnswer.value) {
        outcome := InvalidDate;
      } else {
        var due := if dateAnswer.Some? then dateAnswer.value else "";
        AppendTask(Task(text, InProgress, due));
        outcome := Added;
      }
    }

    /** The end of `add_task` once both checks have passed: append `t`, clear the entry,
        write the list with `t` last, then re-sort and redraw. */
    method AppendTask(t: Task)
      modifies this`tasks, this`rows, this`entry, this`saved
      ensures Valid()
      ensures saved == old(saved) + [old(tasks) + [t]]
      ensures tasks == SortByKey(old(tasks) + [t])
      ensures |tasks| == |old(tasks)| + 1
      ensures multiset(tasks) == multiset(old(tasks)) + multiset{t}
      ensures entry == ""
    {
      var appended := tasks + [t];
      tasks := appended;
      entry := "";
      SaveTasks();
      RefreshTasks();
      assert multiset(appended) == multiset(old(tasks)) + multiset{t};
    }

    /** `toggle_status`: flip the status of task `index`, write, then re-sort (the task
        usually moves, since its key changed). */
    method ToggleStatus(index: nat)
      requires Valid() && index < |tasks|
      modifies this`tasks, this`rows, this`saved
      ensures Valid()
      ensures saved == old(saved) + [ToggleAt(old(tasks), index)]
      ensures tasks == SortByKey(ToggleAt(old(tasks), index))
    {
      tasks := tasks[index := tasks[index].(status := Toggled(tasks[index].status))];
      SaveTasks();
      RefreshTasks();
    }

    /** `delete_task`: when the deletion is confirmed, remove task `index` and write;
        the rest stays sorted, so re-sorting leaves it as it is. When it is not
        confirmed, nothing changes, whatever the index. */
    method DeleteTask(index: nat, confirmed: bool)
      requires Valid() && (confirmed ==> index < |tasks|)
      modifies this`tasks, this`rows, this`saved
      ensures Valid()
      ensures !confirmed ==> tasks == old(tasks) && rows == old(rows) && saved == old(saved)
      ensures confirmed ==>
        saved == old(saved) + [RemoveAt(old(tasks), index)] && tasks == RemoveAt(old(tasks), index)
    {
      if confirmed {
        tasks := tasks[..index] + tasks[index + 1..];
        SaveTasks();
        SortedRemoveAt(old(tasks), index);
        SortedIsFixpoint(tasks);
        RefreshTasks();
      }
    }

    /** `edit_task`: `answer` is what the edit dialog returns. A non-empty answer
        replaces the text of task `index` as typed (it is not stripped), and the order
        is kept because the key does not involve the text. A cancelled or empty
        answer changes nothing. */
    method EditTask(index: nat, answer: Option<string>)
      requires Valid() && index < |tasks|
      modifies this`tasks, this`rows, this`saved
      ensures Valid()
      ensures answer.None? || answer.value == "" ==>
        tasks == old(tasks) && rows == old(rows) && saved == old(saved)
      ensures answer.Some? && answer.value != "" ==>
        && saved == old(saved) + [EditAt(old(tasks), index, answer.value)]
        && tasks == EditAt(old(tasks), index, answer.value)
    {
      if answer.Some? && answer.value != "" {
        tasks := tasks[index := tasks[index].(text := answer.value)];
        SaveTasks();
        SortedEditAt(old(tasks), index, answer.value);
        SortedIsFixpoint(tasks);
        RefreshTasks();
      }
    }

    /** The index bound to every drawn row lies inside the list, and the row shows the
        task at that index; so the toggle, edit and delete callbacks of any row meet
        the `index < |tasks|` their methods need. */
    lemma RowsAreInRange()
      requires Valid()
      ensures |rows| == |tasks|
      ensures forall i :: 0 <= i < |rows| ==> rows[i].index == i && rows[i] == RowFor(i, tasks[i])
    {
      EveryTaskHasItsRow(tasks, filterChoice);
    }
  }
}
