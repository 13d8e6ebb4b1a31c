# To-do list manager, modelled in Dafny

This project models the `Todo` component of a small React to-do list and
its `EditTask` dialog. The component keeps an ordered list of tasks
`{id, title, importance, completed}`, the text of the add input, the text
of the search input, and the id the edit dialog is open for. Its handlers
add a task (trimmed, blank drafts ignored), delete one, flip either flag,
and replace a title. Each handler builds a new list, makes it current and
writes it in full to the browser store under the key `localTasks`. The
page shows the list filtered by a case-insensitive substring search, and a
badge counting the tasks.

Layout, one module per file:

- `text.dfy` (`Text`): ASCII versions of `trim`, `toLowerCase`, `includes`,
  and the decimal rendering of a number in a template literal.
- `seqs.dfy` (`Seqs`): `Filter`, the order-preserving selection behind
  `Array.prototype.filter`, and the subsequence relation it satisfies.
- `tasks.dfy` (`TaskList`): the `Task` record and the pure list
  computations each handler performs, with their lemmas. It also holds the
  save path of the edit dialog as the code is written (see Findings).
- `todo.dfy` (`Todo`): the component as class `Manager`. Its fields are the
  state variables plus `store`, the value held under `localTasks`. The
  dialog is class `Editor`. Three client methods replay short usage
  scenarios through the classes.

`Manager.Valid()` says that `tasks == Load(store)`: reloading the page
from the store gives back the list on screen. Every handler keeps it.
Every handler that writes ends with `store == Some(tasks)`. A blank add
writes nothing. Every handler also keeps the ids of the list unique when
they were unique before; an add needs, in addition, a new id not in use.

The inputs that come from outside become parameters. The list held by the
store at mount time is the constructor's argument. The id of a new task
is an argument of `AddTask`; the source takes it from the clock. The ids
stay unique after an add only when that id was not in use already.

## Model

| member | source | states |
|---|---|---|
| `Text.Trim` | src/components/todo.jsx:24-27 | the trimmed draft is a contiguous piece of the input with only whitespace cut off on either side, and it neither starts nor ends with whitespace |
| `Text.TrimEmptyIff` | src/components/todo.jsx:24 | a draft trims to the empty string exactly when it is all whitespace |
| `Text.TrimUnchanged` | src/components/todo.jsx:27 | a draft that neither starts nor ends with whitespace becomes the title unchanged |
| `Text.TrimIdempotent` | src/components/todo.jsx:27 | the stored title of a new task is already trimmed: trimming it again changes nothing |
| `Text.Includes` | src/components/todo.jsx:81 | `includes` is true exactly when the query occurs at some position of the title |
| `Text.IncludesEmpty` | src/components/todo.jsx:81 | every title includes the empty query |
| `Text.LowerEqualIff` | src/components/todo.jsx:81 | two strings lower-case to the same string exactly when they agree up to the case of their letters |
| `Text.Decimal` | src/components/todo.jsx:130 | the rendered count is a non-empty string of decimal digits with no leading zero |
| `Text.DecimalValue` | src/components/todo.jsx:130 | reading the rendered count back as a decimal number gives the count |
| `Text.DecimalInjective` | src/components/todo.jsx:130 | different counts render differently |
| `Seqs.Filter` | src/components/todo.jsx:39 | `filter` yields no more elements than its input, and every element it yields passes the test |
| `Seqs.FilterSubsequence` | src/components/todo.jsx:39 | `filter` only deletes elements and keeps the order of the rest |
| `Seqs.FilterMembers` | src/components/todo.jsx:39 | every element `filter` yields comes from its input, and every passing element of the input is yielded |
| `Seqs.FilterCounts` | src/components/todo.jsx:39 | `filter` keeps each passing element exactly as often as it occurs and drops all others |
| `Seqs.FilterAll` | src/components/todo.jsx:39 | when every element passes, `filter` returns its input |
| `Seqs.FilterAppend` | src/components/todo.jsx:39 | filtering a concatenation is concatenating the filtered parts |
| `Seqs.FilterRemovesOne` | src/components/todo.jsx:39 | when only the element at k fails the test, `filter` removes exactly that element |
| `TaskList.Load` | src/components/todo.jsx:12-17 | the startup list is the stored list when the store holds one and empty otherwise |
| `TaskList.AddTask` | src/components/todo.jsx:23-36 | a draft that is all whitespace leaves the list as it is; any other draft appends exactly one task (the given id, the trimmed draft as title, both flags false) after the unchanged earlier tasks |
| `TaskList.AddTaskKeepsIdsUnique` | src/components/todo.jsx:25-31 | adding a non-blank draft with an id not yet in use keeps the ids unique; a blank draft needs no fresh id |
| `TaskList.AddAllLength` | src/components/todo.jsx:23-36 | after a run of adds the list has grown by exactly the number of non-blank drafts, and the earlier list is its prefix |
| `TaskList.DeleteTask` | src/components/todo.jsx:38-42 | deleting yields a subsequence of the list without the id, keeping every task whose id differs |
| `TaskList.DeleteCounts` | src/components/todo.jsx:39 | deleting keeps each task with a different id exactly as often as it was there and drops every task with the id |
| `TaskList.DeleteAbsent` | src/components/todo.jsx:39 | deleting an id that is not in the list leaves the list unchanged |
| `TaskList.DeleteTwice` | src/components/todo.jsx:39 | deleting the same id twice equals deleting it once |
| `TaskList.DeleteUndoesAdd` | src/components/todo.jsx:23-42 | adding a task under an id not in use and then deleting that id gives back the original list |
| `TaskList.DeleteAt` | src/components/todo.jsx:39 | with unique ids, deleting the id of the task at k removes exactly that task and keeps the rest in order |
| `TaskList.DeleteKeepsIdsUnique` | src/components/todo.jsx:39 | deleting keeps the ids unique |
| `TaskList.Update` | src/components/todo.jsx:45-47 | the id-directed `map` keeps the length, transforms the tasks with the id and leaves every other task as it is |
| `TaskList.ToggleImportance` | src/components/todo.jsx:44-50 | only the importance of the tasks with the id flips; length, ids, titles and completion are unchanged everywhere |
| `TaskList.ToggleCompletion` | src/components/todo.jsx:52-58 | only the completion of the tasks with the id flips; length, ids, titles and importance are unchanged everywhere |
| `TaskList.ToggleImportanceTwice` | src/components/todo.jsx:45-47 | toggling importance twice restores the list |
| `TaskList.ToggleCompletionTwice` | src/components/todo.jsx:53-55 | toggling completion twice restores the list |
| `TaskList.TogglesCommute` | src/components/todo.jsx:44-58 | the two toggles can be applied in either order |
| `TaskList.ToggleAbsent` | src/components/todo.jsx:45-55 | either toggle on an id that is not in the list leaves the list unchanged |
| `TaskList.EditTitle` | src/components/todo.jsx:68-78 | only the titles of the tasks with the id change, to the new title verbatim; ids and both flags are unchanged everywhere |
| `TaskList.EditAcceptsEmptyTitle` | src/components/todo.jsx:69-74 | an edit to the empty title is accepted, while adding the empty draft adds nothing |
| `TaskList.EditTitleTwice` | src/components/todo.jsx:69-74 | a second edit of the same id overrides the first |
| `TaskList.UpdatesKeepIdsUnique` | src/components/todo.jsx:44-78 | both toggles and the edit keep the ids unique |
| `TaskList.TargetValue` | src/components/todo.jsx:71 | `e.target.value` fails exactly when `e` is a plain string |
| `TaskList.HandleEditChangeAsWritten` | src/components/todo.jsx:68-78 | as written, the handler throws exactly when a task with the id exists and it is given a plain string; given a change event it performs the intended edit |
| `TaskList.SaveAsWrittenThrows` | src/components/todo.jsx:206-209 | saving from the dialog as written throws for every existing task, while the intended edit sets the title |
| `TaskList.SaveAsWrittenExample` | src/components/todo.jsx:207 | on the list [task "1" titled "a"], saving "b" as written throws; the intended edit gives the title "b" |
| `TaskList.Find` | src/components/todo.jsx:194 | `find` returns nothing exactly when no task has the id, and otherwise the first task with it |
| `TaskList.Visible` | src/components/todo.jsx:80-82 | the search view is a subsequence of the list, every task in it matches the query ignoring case, and every matching task is in it |
| `TaskList.VisibleCounts` | src/components/todo.jsx:80-82 | the search view holds each matching task as often as the list does, and no other task |
| `TaskList.VisibleEmptyQuery` | src/components/todo.jsx:80-82 | the empty query shows the whole list in order |
| `TaskList.CaseInsensitive` | src/components/todo.jsx:81 | changing the case of letters in the title or in the query does not change whether a task matches |
| `TaskList.VisibleCaseInsensitive` | src/components/todo.jsx:80-82 | two queries that agree up to case give the same search view |
| `TaskList.MilkMatches` | src/components/todo.jsx:81 | the query "MILK" matches the title "buy milk" |
| `TaskList.CountLabel` | src/components/todo.jsx:126-130 | the badge is "No Tasks" exactly for 0, "1 Task" exactly for 1, and the decimal count followed by " Tasks" otherwise |
| `TaskList.CountLabelInjective` | src/components/todo.jsx:126-130 | different counts give different badges |
| `Todo.Manager.constructor` | src/components/todo.jsx:5-17 | mounting starts with empty inputs and no dialog, and the list is the stored one when the store holds one |
| `Todo.Manager.SetDraft` | src/components/todo.jsx:101 | typing sets the add input's text |
| `Todo.Manager.SetSearchQuery` | src/components/todo.jsx:121 | typing sets the search text and nothing else |
| `Todo.Manager.AddTask` | src/components/todo.jsx:23-36 | a blank draft changes nothing and writes nothing; otherwise the list gains the new task at the end, the store holds the new list and the input is cleared; the ids stay unique when the new id was not in use |
| `Todo.Manager.DeleteTask` | src/components/todo.jsx:38-42 | the list becomes the list without the id and the store holds it |
| `Todo.Manager.ToggleImportance` | src/components/todo.jsx:44-50 | the list becomes the toggled list and the store holds it |
| `Todo.Manager.ToggleCompletion` | src/components/todo.jsx:52-58 | the list becomes the toggled list and the store holds it |
| `Todo.Manager.OpenEditModal` | src/components/todo.jsx:60-62 | the dialog is open for the id |
| `Todo.Manager.CloseEditModal` | src/components/todo.jsx:64-66 | no dialog is open |
| `Todo.Manager.HandleEditChange` | src/components/todo.jsx:68-78 | the list becomes the edited list and the store holds it; the dialog state is untouched |
| `Todo.Manager.FilteredTasks` | src/components/todo.jsx:80-82 | the view is the search view of the current list and query: matching tasks of the list only, in list order and with their multiplicity, every matching task, and the whole list for the empty query |
| `Todo.Manager.Badge` | src/components/todo.jsx:125-131 | the badge names the current number of tasks |
| `Todo.Manager.EditTarget` | src/components/todo.jsx:192-197 | a dialog is shown exactly when the open id is non-empty and some task has it, and it is bound to the first such task |
| `Todo.Editor.constructor` | src/components/todo.jsx:203-204 | the dialog's draft starts as the bound task's title |
| `Todo.Editor.SetEditedTask` | src/components/todo.jsx:219 | typing sets the dialog's draft |
| `Todo.Editor.Save` | src/components/todo.jsx:206-209 | saving commits the draft to the bound task, writes the store, then closes the dialog |
| `Todo.Editor.Cancel` | src/components/todo.jsx:225 | cancelling closes the dialog and leaves the list and the store unchanged |
| `Todo.AddScenario` | src/components/todo.jsx:23-36 | from an empty store, adding "Write report" gives one fresh task, stored, with the badge "1 Task" |
| `Todo.DeleteScenario` | src/components/todo.jsx:38-42 | with [a, b] stored, deleting a leaves [b] in the list and in the store |
| `Todo.OpenCancelScenario` | src/components/todo.jsx:60-66 | opening the dialog and cancelling leaves it closed and the list unchanged |

## Findings

| source | as written | input that shows it | evidently intended | confidence | as-written member | corrected member |
|---|---|---|---|---|---|---|
| src/components/todo.jsx:68-71, 207 | `handleEditChange(e, id)` reads `e.target.value`, but `EditTask.handleSave` passes the draft string itself as `e`, so `e.target` is undefined and reading `.value` throws a TypeError for any existing task; the title is never saved and the dialog does not close | the list [task "1" titled "a"], Save with the draft "b" | set the title of the task to the draft string | not executed | `TaskList.HandleEditChangeAsWritten` (with `TaskList.SaveAsWrittenThrows`, `TaskList.SaveAsWrittenExample`) | `TaskList.EditTitle`, used by `Todo.Manager.HandleEditChange` and `Todo.Editor.Save` |

## Left out

- Rendering: JSX markup, CSS classes, the icons and `PropTypes`. The `disabled` class on the Finish button of a finished task is also left out. Whether it blocks the click depends on the stylesheet, which is not part of this model. `toggleCompletion` (src/components/todo.jsx:52-58) flips the flag whenever it is called.
- The `showButtons` effect: it only decides whether the action buttons are drawn.
- `localStorage` and JSON: the store is the field `store` holding the list itself. Serialisation and parsing are left out. Stored text that is not JSON makes `JSON.parse` throw. A parsed value that is falsy (`null`, `0`, `false`, the empty string) fails the test at src/components/todo.jsx:14, and the list stays empty; the model's `None` stands for that case and for an absent key. A parsed value that is truthy but not a list, such as `{}`, is adopted as it is; the model does not represent such a value.
- Clock ids: `new Date().getTime()` is a foreign call. The id is a parameter. `Todo.Manager.AddTask` accepts any id, and promises unique ids only when the new id was not in use. The clock does not guarantee that.
- Text.Trim: only ASCII whitespace is removed. JavaScript's `trim` also removes Unicode spaces and line terminators.
- Text.Lower: only 'A'..'Z' are folded. JavaScript's `toLowerCase` folds all of Unicode. Strings are sequences of Unicode scalar values, not UTF-16 code units.
- Todo.Manager.EditTarget: when the open id belongs to no task, the source renders `EditTask` with an undefined task and throws on `task.title`. The model renders no dialog. The model assumes that this state does not arise. That is an assumption: nothing in src/components/todo.jsx stops a click on Delete (line 169) while the dialog is rendered, and the dialog's styling is not part of this model.
