/** The `Todo` component as an object: its state variables become fields,
    and each event handler a method that replaces them. The browser store is
    the field `store`, the list last written under the key 'localTasks'
    (None while nothing has been written). */
module Todo {
  import opened Text
  import opened TaskList

  class Manager {
    /** `task`: the text of the add-task input. */
    var draft: string
    /** `tasks`: the current list. */
    var tasks: seq<Task>
    /** `editTaskId`: the id the edit dialog is open for, if any. */
    var editTaskId: Option<string>
    /** `searchQuery`: the text of the search input. */
    var searchQuery: string
    /** The value held by the store under 'localTasks'. */
    var store: Option<seq<Task>>

    /** Reloading the component from the store gives back the list shown. */
    ghost predicate Valid()
      reads this
    {
      tasks == Load(store)
    }

    /** Mounting the component: every state starts empty, and the load
        effect adopts the stored list when the store holds one. */
    constructor (stored: Option<seq<Task>>)
      ensures Valid()
      ensures tasks == Load(stored) && store == stored
      ensures draft == "" && searchQuery == "" && editTaskId == None
    {
      draft := "";
      tasks := Load(stored);
      editTaskId := None;
      searchQuery := "";
      store := stored;
    }

    /** Typing into the add-task input. */
    method SetDraft(text: string)
      modifies this`draft
      ensures draft == text
    {
      draft := text;
    }

    /** Typing into the search input; the list and the store are untouched. */
    method SetSearchQuery(query: string)
      modifies this`searchQuery
      ensures searchQuery == query
    {
      searchQuery := query;
    }

    /** `addTask`. The id comes from the caller, where the source reads the
        clock. A blank draft changes nothing and writes nothing; otherwise
        the new list becomes current, is written to the store, and the input
        is cleared. The ids stay unique when the new id was not in use. */
    method AddTask(newId: string)
      requires Valid()
      modifies this`tasks, this`store, this`draft
      ensures Valid()
      ensures AllSpace(old(draft)) ==>
                tasks == old(tasks) && store == old(store) && draft == old(draft)
      ensures !AllSpace(old(draft)) ==>
                tasks == old(tasks) + [Task(newId, Trim(old(draft)), false, false)]
                && store == Some(tasks) && draft == ""
      ensures (UniqueIds(old(tasks)) && (!AllSpace(old(draft)) ==> !HasId(old(tasks), newId)))
                ==> UniqueIds(tasks)
    {
      var d := draft;
      TrimEmptyIff(d);
      if UniqueIds(tasks) && (!AllSpace(d) ==> !HasId(tasks, newId)) {
        AddTaskKeepsIdsUnique(tasks, newId, d);
      }
      if Trim(d) != "" {
        var updated := TaskList.AddTask(tasks, newId, d);
        assert updated[|tasks|] == Task(newId, Trim(d), false, false);
        assert updated == tasks + [Task(newId, Trim(d), false, false)];
        tasks := updated;
        store := Some(updated);
        draft := "";
      }
    }

    /** `deleteTask`: the list without the tasks with that id becomes
        current and is written to the store, even when nothing was removed. */
    method DeleteTask(id: string)
      requires Valid()
      modifies this`tasks, this`store
      ensures Valid()
      ensures tasks == TaskList.DeleteTask(old(tasks), id) && store == Some(tasks)
      ensures UniqueIds(old(tasks)) ==> UniqueIds(tasks)
    {
      if UniqueIds(tasks) {
        DeleteKeepsIdsUnique(tasks, id);
      }
      var updated := TaskList.DeleteTask(tasks, id);
      tasks := updated;
      store := Some(updated);
    }

    /** `toggleImportance`. */
    method ToggleImportance(id: string)
      requires Valid()
      modifies this`tasks, this`store
      ensures Valid()
      ensures tasks == TaskList.ToggleImportance(old(tasks), id) && store == Some(tasks)
      ensures UniqueIds(old(tasks)) ==> UniqueIds(tasks)
    {
      if UniqueIds(tasks) {
        UpdatesKeepIdsUnique(tasks, id, "");
      }
      var updated := TaskList.ToggleImportance(tasks, id);
      tasks := updated;
      store := Some(updated);
    }

    /** `toggleCompletion`: flips the flag whenever it is called. Whether the
        disabled style on a finished task's button lets a click through
        depends on the stylesheet, which is not part of this model. */
    method ToggleCompletion(id: string)
      requires Valid()
      modifies this`tasks, this`store
      ensures Valid()
      ensures tasks == TaskList.ToggleCompletion(old(tasks), id) && store == Some(tasks)
      ensures UniqueIds(old(tasks)) ==> UniqueIds(tasks)
    {
      if UniqueIds(tasks) {
        UpdatesKeepIdsUnique(tasks, id, "");
      }
      var updated := TaskList.ToggleCompletion(tasks, id);
      tasks := updated;
      store := Some(updated);
    }

    /** `openEditModal`. */
    method OpenEditModal(id: string)
      modifies this`editTaskId
      ensures editTaskId == Some(id)
    {
      editTaskId := Some(id);
    }

    /** `closeEditModal`. */
    method CloseEditModal()
      modifies this`editTaskId
      ensures editTaskId == None
    {
      editTaskId := None;
    }

    /** `handleEditChange(title, id)`, taking the new title as the string
        its only caller passes. The source's body reads `e.target.value`,
        which fails on a string; this method models the evident intent,
        and `TaskList.HandleEditChangeAsWritten` the code as written. The
        title is taken verbatim and the dialog is left open. */
    method HandleEditChange(title: string, id: string)
      requires Valid()
      modifies this`tasks, this`store
      ensures Valid()
      ensures tasks == EditTitle(old(tasks), id, title) && store == Some(tasks)
      ensures UniqueIds(old(tasks)) ==> UniqueIds(tasks)
    {
      if UniqueIds(tasks) {
        UpdatesKeepIdsUnique(tasks, id, title);
      }
      var updated := EditTitle(tasks, id, title);
      tasks := updated;
      store := Some(updated);
    }

    /** `filteredTasks`: the list as the search input filters it. */
    method FilteredTasks() returns (view: seq<Task>)
      ensures forall i :: 0 <= i < |view| ==> Matches(view[i], searchQuery) && view[i] in tasks
      ensures forall i :: 0 <= i < |tasks| && Matches(tasks[i], searchQuery) ==> tasks[i] in view
      ensures searchQuery == "" ==> view == tasks
      ensures view == Visible(tasks, searchQuery)
    {
      view := Visible(tasks, searchQuery);
      if searchQuery == "" {
        VisibleEmptyQuery(tasks);
      }
    }

    /** The badge under the inputs. */
    method Badge() returns (badge: string)
      ensures |tasks| == 0 <==> badge == "No Tasks"
      ensures |tasks| == 1 <==> badge == "1 Task"
      ensures |tasks| >= 2 ==> badge == Decimal(|tasks|) + " Tasks"
    {
      badge := CountLabel(|tasks|);
    }

    /** The task the edit dialog is rendered for: only while `editTaskId`
        holds a non-empty id (the empty string is falsy), and then the
        first task with that id. */
    method EditTarget() returns (target: Option<Task>)
      ensures target.Some? ==>
                editTaskId == Some(target.value.id) && target.value.id != ""
                && exists i :: FirstWithId(tasks, target.value.id, i) && tasks[i] == target.value
      ensures target.None? <==>
                editTaskId.None? || editTaskId.value == "" || !HasId(tasks, editTaskId.value)
    {
      match editTaskId
      case None =>
        target := None;
      case Some(id) =>
        if id == "" {
          target := None;
        } else {
          target := Find(tasks, id);
        }
    }
  }

  /** The `EditTask` dialog: bound to one task, it keeps its own draft of
      the title, initialised from the task. */
  class Editor {
    const taskId: string
    /** `editedTask`: the text of the dialog's input. */
    var editedTask: string

    constructor (task: Task)
      ensures taskId == task.id && editedTask == task.title
    {
      taskId := task.id;
      editedTask := task.title;
    }

    /** Typing into the dialog's input; the manager is untouched. */
    method SetEditedTask(text: string)
      modifies this`editedTask
      ensures editedTask == text
    {
      editedTask := text;
    }

    /** `handleSave`: commits the draft to the bound task, then closes the
        dialog. */
    method Save(m: Manager)
      requires m.Valid()
      modifies m
      ensures m.Valid()
      ensures m.tasks == EditTitle(old(m.tasks), taskId, editedTask) && m.store == Some(m.tasks)
      ensures m.editTaskId == None
      ensures m.draft == old(m.draft) && m.searchQuery == old(m.searchQuery)
    {
      m.HandleEditChange(editedTask, taskId);
      m.CloseEditModal();
    }

    /** The Cancel button: closes the dialog and commits nothing. */
    method Cancel(m: Manager)
      modifies m
      ensures m.editTaskId == None
      ensures m.tasks == old(m.tasks) && m.store == old(m.store)
      ensures m.draft == old(m.draft) && m.searchQuery == old(m.searchQuery)
    {
      m.CloseEditModal();
    }
  }

  /** Starting from an empty store, adding "Write report" gives a list of
      one fresh task, stored, and the badge "1 Task". */
  method AddScenario(id: string) returns (m: Manager)
    ensures m.Valid()
    ensures |m.tasks| == 1 && m.tasks[0] == Task(id, "Write report", false, false)
    ensures m.store == Some(m.tasks)
  {
    m := new Manager(None);
    m.SetDraft("Write report");
    assert !AllSpace("Write report") by { assert !IsSpace("Write report"[0]); }
    assert Trim("Write report") == "Write report" by {
      TrimUnchanged("Write report");
    }
    m.AddTask(id);
    var badge := m.Badge();
    assert badge == "1 Task";
  }

  /** With two tasks a and b stored, deleting a leaves [b], and [b] is what
      the store holds. */
  method DeleteScenario(a: Task, b: Task) returns (m: Manager)
    requires a.id != b.id
    ensures m.tasks == [b] && m.store == Some([b])
  {
    m := new Manager(Some([a, b]));
    DeleteAt([a, b], 0);
    m.DeleteTask(a.id);
  }

  /** Opening the dialog and then cancelling it leaves no dialog open and
      the list as it was. */
  method OpenCancelScenario(m: Manager, id: string)
    requires m.Valid()
    modifies m
    ensures m.editTaskId == None && m.tasks == old(m.tasks) && m.store == old(m.store)
  {
    m.OpenEditModal(id);
    var target := m.EditTarget();
    if target.Some? {
      var editor := new Editor(target.value);
      editor.Cancel(m);
    } else {
      m.CloseEditModal();
    }
  }
}
