/** The row-building loop of `refresh_tasks`: which tasks get a row, the index each
    row's toggle, edit and delete controls are bound to, the label and its colour. */
module Render {
  import opened Tasks

  datatype Colour = Green | Blue

  /** What one row shows and which list index its three controls call back with. */
  datatype Row = Row(index: nat, caption: string, colour: Colour, checked: bool)

  /** `task['due'] or 'N/A'`: an empty due string shows as "N/A". */
  function DueText(due: string): (r: string)
    ensures r != []
    ensures due == [] ==> r == "N/A"
    ensures due != [] ==> r == due
  {
    if due == "" then "N/A" else due
  }

  /** `f"{task['text']}  [Due: {task['due'] or 'N/A'}]"`. */
  function Label(t: Task): (r: string)
    ensures |r| == |t.text| + 9 + |DueText(t.due)|
    ensures r[..|t.text|] == t.text
    ensures r[|t.text|..] == "  [Due: " + DueText(t.due) + "]"
  {
    t.text + "  [Due: " + DueText(t.due) + "]"
  }

  /** `"green" if task["status"] == "done" else "blue"`. */
  function ColourOf(status: string): (c: Colour)
    ensures c == Green <==> status == Done
  {
    if status == Done then Green else Blue
  }

  /** The row drawn for task `t` at list position `idx`; the checkbox starts ticked
      exactly when the task is done. */
  function RowFor(idx: nat, t: Task): (r: Row)
    ensures r.index == idx && r.caption == Label(t)
    ensures r.checked <==> t.status == Done
    ensures r.colour == Green <==> r.checked
  {
    Row(idx, Label(t), ColourOf(t.status), t.status == Done)
  }

  /** The guard of the loop: a task is skipped only when the filter is not "all" and
      the task's status differs from the option chosen in the menu. */
  predicate Shown(t: Task, filterStatus: string, filterChoice: string): (r: bool)
    ensures r <==> filterStatus == "all" || t.status == filterChoice
  {
    !(filterStatus != "all" && t.status != filterChoice)
  }

  /** The rows drawn for the list `s`, in order. */
  function RowsOf(s: seq<Task>, filterStatus: string, filterChoice: string): (r: seq<Row>)
    ensures |r| <= |s|
    ensures filterStatus == "all" ==> |r| == |s|
  {
    if s == [] then []
    else
      var last := s[|s| - 1];
      RowsOf(s[..|s| - 1], filterStatus, filterChoice)
        + (if Shown(last, filterStatus, filterChoice) then [RowFor(|s| - 1, last)] else [])
  }

  /** The `for idx, task in enumerate(self.tasks)` loop of `refresh_tasks`. */
  method RenderRows(tasks: seq<Task>, filterStatus: string, filterChoice: string) returns (rows: seq<Row>)
    ensures rows == RowsOf(tasks, filterStatus, filterChoice)
    ensures filterStatus == "all" ==>
      |rows| == |tasks| && forall i :: 0 <= i < |tasks| ==> rows[i] == RowFor(i, tasks[i])
  {
    rows := [];
    for idx := 0 to |tasks|
      invariant rows == RowsOf(tasks[..idx], filterStatus, filterChoice)
    {
      var task := tasks[idx];
      assert tasks[..idx + 1][..idx] == tasks[..idx];
      if filterStatus != "all" && task.status != filterChoice {
        continue;
      }
      rows := rows + [RowFor(idx, task)];
    }
    assert tasks[..|tasks|] == tasks;
    if filterStatus == "all" {
      EveryTaskHasItsRow(tasks, filterChoice);
    }
  }

  /** With the filter at "all" the guard never skips: task `i` gets row `i`, bound to
      index `i`, whatever option the menu shows. */
  lemma {:induction false} EveryTaskHasItsRow(s: seq<Task>, filterChoice: string)
    ensures |RowsOf(s, "all", filterChoice)| == |s|
    ensures forall i :: 0 <= i < |s| ==> RowsOf(s, "all", filterChoice)[i] == RowFor(i, s[i])
  {
    if s != [] {
      var init := s[..|s| - 1];
      EveryTaskHasItsRow(init, filterChoice);
      assert forall i :: 0 <= i < |init| ==> init[i] == s[i];
    }
  }

  /** The filter is inert: with the filter at "all", the option chosen in the menu
      makes no difference to what is drawn. */
  lemma MenuChoiceIsIgnored(s: seq<Task>, choice1: string, choice2: string)
    ensures RowsOf(s, "all", choice1) == RowsOf(s, "all", choice2)
  {
    EveryTaskHasItsRow(s, choice1);
    EveryTaskHasItsRow(s, choice2);
  }

  /** Every row is bound to a position of the list it was drawn from, so a later toggle,
      edit or delete through it indexes inside the list (as long as the list is redrawn
      after every change, which every operation does). Each row shows the task at its
      index, and that task passed the guard. */
  lemma {:induction false} RowsAreBoundInside(s: seq<Task>, filterStatus: string, filterChoice: string)
    ensures forall r :: r in RowsOf(s, filterStatus, filterChoice) ==>
      r.index < |s| && r == RowFor(r.index, s[r.index]) && Shown(s[r.index], filterStatus, filterChoice)
  {
    if s != [] {
      var init := s[..|s| - 1];
      RowsAreBoundInside(init, filterStatus, filterChoice);
      assert forall i :: 0 <= i < |init| ==> init[i] == s[i];
    }
  }

  /** Rows come in list order: their indices strictly increase. */
  lemma {:induction false} RowIndicesIncrease(s: seq<Task>, filterStatus: string, filterChoice: string)
    ensures forall m, n :: 0 <= m < n < |RowsOf(s, filterStatus, filterChoice)| ==>
      RowsOf(s, filterStatus, filterChoice)[m].index < RowsOf(s, filterStatus, filterChoice)[n].index
  {
    if s != [] {
      var init := s[..|s| - 1];
      RowIndicesIncrease(init, filterStatus, filterChoice);
      RowsAreBoundInside(init, filterStatus, filterChoice);
      var prev, rows := RowsOf(init, filterStatus, filterChoice), RowsOf(s, filterStatus, filterChoice);
      forall m, n | 0 <= m < n < |rows| ensures rows[m].index < rows[n].index {
        assert rows[m] == prev[m] && prev[m] in prev;
        assert prev[m].index < |init|;
        if n < |prev| { assert rows[n] == prev[n]; } else { assert rows[n] == RowFor(|s| - 1, s[|s| - 1]); }
      }
    }
  }

  /** A task with a status that `filterChoice` selects gets a row, when the filter is
      not "all". Together with `RowsAreBoundInside` and `RowIndicesIncrease`, the rows are
      then exactly the tasks of that status, in order. */
  lemma {:induction false} SelectedTaskHasRow(s: seq<Task>, filterStatus: string, filterChoice: string, i: nat)
    requires i < |s| && s[i].status == filterChoice
    ensures RowFor(i, s[i]) in RowsOf(s, filterStatus, filterChoice)
  {
    var init := s[..|s| - 1];
    if i < |s| - 1 {
      SelectedTaskHasRow(init, filterStatus, filterChoice, i);
      assert init[i] == s[i];
    }
  }

  /** The three tasks of the sort example, sorted. The filter left at "all" with
      "done" chosen in the menu still draws all three rows; had the filter been set to
      "done", only the done task would get a row, at its own index 2. */
  lemma FilterExample()
    ensures
      var a, b, c := Task("A", InProgress, "2024-06-01"), Task("B", Done, ""), Task("C", InProgress, "");
      && |RowsOf([c, a, b], "all", Done)| == 3
      && RowsOf([c, a, b], Done, Done) == [Row(2, "B  [Due: N/A]", Green, true)]
  {
    var a, b, c := Task("A", InProgress, "2024-06-01"), Task("B", Done, ""), Task("C", InProgress, "");
    EveryTaskHasItsRow([c, a, b], Done);
    assert [c, a, b][..2] == [c, a] && [c, a][..1] == [c] && [c][..0] == [];
    assert RowsOf([c], Done, Done) == [];
    assert RowsOf([c, a], Done, Done) == [];
    assert Label(b) == "B  [Due: N/A]";
  }
}
