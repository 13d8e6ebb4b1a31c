/** The task records of the to-do list and the pure computations the `Todo`
    component performs on its list of them: each handler builds a new list
    from the old one with an array spread, a `filter` or a `map`. */
module TaskList {
  import opened Text
  import opened Seqs

  datatype Option<T> = None | Some(value: T)

  /** One to-do item, `{id, title, importance, completed}`. */
  datatype Task = Task(id: string, title: string, importance: bool, completed: bool)

  predicate HasId(ts: seq<Task>, id: string) {
    exists i :: 0 <= i < |ts| && ts[i].id == id
  }

  /** No two tasks of the list share an id. */
  predicate UniqueIds(ts: seq<Task>) {
    forall i, j :: 0 <= i < j < |ts| ==> ts[i].id != ts[j].id
  }

  // ---------------------------------------------------------------------
  // Loading the stored list
  // ---------------------------------------------------------------------

  /** The list the component starts from, given what the store holds under
      its key: the stored list when there is one, the empty list otherwise. */
  function Load(stored: Option<seq<Task>>): (r: seq<Task>)
    ensures stored.Some? ==> r == stored.value
    ensures stored.None? ==> r == []
  {
    match stored
    case Some(ts) => ts
    case None => []
  }

  // ---------------------------------------------------------------------
  // Adding
  // ---------------------------------------------------------------------

  /** `addTask` on the list: a draft that is blank once trimmed adds nothing;
      any other draft appends one new task carrying the trimmed draft as its
      title, neither important nor completed, after all existing tasks. */
  function AddTask(ts: seq<Task>, id: string, draft: string): (r: seq<Task>)
    ensures AllSpace(draft) ==> r == ts
    ensures !AllSpace(draft) ==>
              |r| == |ts| + 1 && r[..|ts|] == ts
              && r[|ts|].id == id && r[|ts|].title == Trim(draft)
              && !r[|ts|].importance && !r[|ts|].completed
    ensures !AllSpace(draft) ==>
              Trim(draft) != [] && !IsSpace(Trim(draft)[0])
              && !IsSpace(Trim(draft)[|Trim(draft)| - 1])
  {
    TrimEmptyIff(draft);
    if Trim(draft) != [] then ts + [Task(id, Trim(draft), false, false)] else ts
  }

  /** A fresh id keeps the ids of the list unique. */
  lemma AddTaskKeepsIdsUnique(ts: seq<Task>, id: string, draft: string)
    requires UniqueIds(ts)
    requires !AllSpace(draft) ==> !HasId(ts, id)
    ensures UniqueIds(AddTask(ts, id, draft))
  {
    var r := AddTask(ts, id, draft);
    if !AllSpace(draft) {
      forall i, j | 0 <= i < j < |r| ensures r[i].id != r[j].id {
        if j < |ts| {
          assert r[i] == ts[i] && r[j] == ts[j];
        } else {
          assert r[i] == ts[i];
        }
      }
    }
  }

  /** The number of drafts in `drafts` that are not blank. */
  function NonBlank(drafts: seq<(string, string)>): nat {
    if drafts == [] then 0
    else (if AllSpace(drafts[0].1) then 0 else 1) + NonBlank(drafts[1..])
  }

  /** A run of `addTask` calls, each with its own id and draft. */
  function AddAll(ts: seq<Task>, drafts: seq<(string, string)>): seq<Task>
    decreases |drafts|
  {
    if drafts == [] then ts
    else AddAll(AddTask(ts, drafts[0].0, drafts[0].1), drafts[1..])
  }

  /** After a run of adds the list has grown by exactly the number of
      non-blank drafts, and what was there before is still its prefix. */
  lemma {:induction false} AddAllLength(ts: seq<Task>, drafts: seq<(string, string)>)
    ensures |AddAll(ts, drafts)| == |ts| + NonBlank(drafts)
    ensures AddAll(ts, drafts)[..|ts|] == ts
    decreases |drafts|
  {
    if drafts != [] {
      var next := AddTask(ts, drafts[0].0, drafts[0].1);
      AddAllLength(next, drafts[1..]);
      assert next[..|ts|] == ts;
      assert AddAll(ts, drafts)[..|ts|] == AddAll(next, drafts[1..])[..|next|][..|ts|];
    }
  }

  // ---------------------------------------------------------------------
  // Deleting
  // ---------------------------------------------------------------------

  /** The test `deleteTask` filters by: the task's id differs from `id`. */
  function OtherId(id: string): Task -> bool {
    (t: Task) => t.id != id
  }

  /** `deleteTask`: every task whose id differs from `id`, in list order. */
  function DeleteTask(ts: seq<Task>, id: string): (r: seq<Task>)
    ensures IsSubsequence(r, ts)
    ensures !HasId(r, id)
    ensures forall i :: 0 <= i < |r| ==> r[i] in ts
    ensures forall i :: 0 <= i < |ts| && ts[i].id != id ==> ts[i] in r
  {
    FilterSubsequence(ts, OtherId(id));
    FilterMembers(ts, OtherId(id));
    Filter(ts, OtherId(id))
  }

  /** Deleting drops every task with the id and keeps every other task
      exactly as often as it was there. */
  lemma DeleteCounts(ts: seq<Task>, id: string)
    ensures forall t :: multiset(DeleteTask(ts, id))[t] == if t.id == id then 0 else multiset(ts)[t]
  {
    FilterCounts(ts, OtherId(id));
  }

  /** Deleting an id that is not in the list changes nothing. */
  lemma DeleteAbsent(ts: seq<Task>, id: string)
    requires !HasId(ts, id)
    ensures DeleteTask(ts, id) == ts
  {
    FilterAll(ts, OtherId(id));
  }

  /** Deleting the same id twice is deleting it once. */
  lemma DeleteTwice(ts: seq<Task>, id: string)
    ensures DeleteTask(DeleteTask(ts, id), id) == DeleteTask(ts, id)
  {
    DeleteAbsent(DeleteTask(ts, id), id);
  }

  /** With unique ids, deleting the id of the task at index `k` removes
      exactly that task and keeps the others in order. */
  lemma DeleteAt(ts: seq<Task>, k: nat)
    requires UniqueIds(ts) && k < |ts|
    ensures DeleteTask(ts, ts[k].id) == ts[..k] + ts[k + 1..]
  {
    FilterRemovesOne(ts, k, OtherId(ts[k].id));
  }

  /** Deleting undoes adding: a task added under an id not in use goes away
      again when that id is deleted, and the list is as it was. */
  lemma DeleteUndoesAdd(ts: seq<Task>, id: string, draft: string)
    requires !HasId(ts, id)
    ensures DeleteTask(AddTask(ts, id, draft), id) == ts
  {
    DeleteAbsent(ts, id);
    if !AllSpace(draft) {
      var t := Task(id, Trim(draft), false, false);
      assert AddTask(ts, id, draft) == ts + [t];
      FilterAppend(ts, [t], OtherId(id));
      assert Filter([t], OtherId(id)) == [];
    }
  }

  /** Deleting keeps the ids of the list unique. */
  lemma {:induction false} DeleteKeepsIdsUnique(ts: seq<Task>, id: string)
    requires UniqueIds(ts)
    ensures UniqueIds(DeleteTask(ts, id))
  {
    if ts != [] {
      DeleteKeepsIdsUnique(ts[1..], id);
      var rest := DeleteTask(ts[1..], id);
      if ts[0].id != id {
        assert DeleteTask(ts, id) == [ts[0]] + rest;
        forall j | 0 <= j < |rest| ensures rest[j].id != ts[0].id {
          var m :| 0 <= m < |ts[1..]| && ts[1..][m] == rest[j];
          assert ts[m + 1] == rest[j];
        }
      }
    }
  }

  // ---------------------------------------------------------------------
  // Updating the task with a given id
  // ---------------------------------------------------------------------

  /** The id-directed `map` of the handlers: `f` applied to every task with
      id `id`, every other task kept as it is. */
  function Update(ts: seq<Task>, id: string, f: Task -> Task): (r: seq<Task>)
    ensures |r| == |ts|
    ensures forall i :: 0 <= i < |ts| ==> r[i] == if ts[i].id == id then f(ts[i]) else ts[i]
  {
    if ts == [] then []
    else [if ts[0].id == id then f(ts[0]) else ts[0]] + Update(ts[1..], id, f)
  }

  function FlipImportance(t: Task): Task {
    t.(importance := !t.importance)
  }

  function FlipCompletion(t: Task): Task {
    t.(completed := !t.completed)
  }

  /** `toggleImportance`: the tasks with id `id` have their importance
      flipped; lengths, ids, titles, completion and every other task stay. */
  function ToggleImportance(ts: seq<Task>, id: string): (r: seq<Task>)
    ensures |r| == |ts|
    ensures forall i :: 0 <= i < |ts| ==>
              r[i].id == ts[i].id && r[i].title == ts[i].title
              && r[i].completed == ts[i].completed
              && (r[i].importance <==> (ts[i].importance != (ts[i].id == id)))
  {
    Update(ts, id, FlipImportance)
  }

  /** `toggleCompletion`: as `ToggleImportance`, for the completion flag. */
  function ToggleCompletion(ts: seq<Task>, id: string): (r: seq<Task>)
    ensures |r| == |ts|
    ensures forall i :: 0 <= i < |ts| ==>
              r[i].id == ts[i].id && r[i].title == ts[i].title
              && r[i].importance == ts[i].importance
              && (r[i].completed <==> (ts[i].completed != (ts[i].id == id)))
  {
    Update(ts, id, FlipCompletion)
  }

  /** Toggling importance twice restores the list. */
  lemma ToggleImportanceTwice(ts: seq<Task>, id: string)
    ensures ToggleImportance(ToggleImportance(ts, id), id) == ts
  {
    var r := ToggleImportance(ToggleImportance(ts, id), id);
    forall i | 0 <= i < |ts| ensures r[i] == ts[i] {
      assert r[i].importance == ts[i].importance;
    }
  }

  /** Toggling completion twice restores the list. */
  lemma ToggleCompletionTwice(ts: seq<Task>, id: string)
    ensures ToggleCompletion(ToggleCompletion(ts, id), id) == ts
  {
    var r := ToggleCompletion(ToggleCompletion(ts, id), id);
    forall i | 0 <= i < |ts| ensures r[i] == ts[i] {
      assert r[i].completed == ts[i].completed;
    }
  }

  /** The two toggles do not interfere: their order does not matter. */
  lemma TogglesCommute(ts: seq<Task>, a: string, b: string)
    ensures ToggleImportance(ToggleCompletion(ts, a), b)
         == ToggleCompletion(ToggleImportance(ts, b), a)
  {
    var l := ToggleImportance(ToggleCompletion(ts, a), b);
    var r := ToggleCompletion(ToggleImportance(ts, b), a);
    forall i | 0 <= i < |ts| ensures l[i] == r[i] {
      assert l[i].importance == r[i].importance && l[i].completed == r[i].completed;
    }
  }

  /** A toggle for an id that is not in the list changes nothing. */
  lemma ToggleAbsent(ts: seq<Task>, id: string)
    requires !HasId(ts, id)
    ensures ToggleImportance(ts, id) == ts && ToggleCompletion(ts, id) == ts
  {
    var a := ToggleImportance(ts, id);
    var b := ToggleCompletion(ts, id);
    forall i | 0 <= i < |ts| ensures a[i] == ts[i] && b[i] == ts[i] {
      assert ts[i].id != id;
    }
  }

  /** The commit of the edit dialog (`handleEditChange`, as its caller
      evidently intends it): the tasks with id `id` take `title` verbatim,
      with no trimming and no blank check; nothing else changes. */
  function EditTitle(ts: seq<Task>, id: string, title: string): (r: seq<Task>)
    ensures |r| == |ts|
    ensures forall i :: 0 <= i < |ts| ==>
              r[i].id == ts[i].id && r[i].importance == ts[i].importance
              && r[i].completed == ts[i].completed
              && r[i].title == (if ts[i].id == id then title else ts[i].title)
  {
    Update(ts, id, (t: Task) => t.(title := title))
  }

  /** Unlike adding, an edit accepts the empty title: the edited task is
      there afterwards with title "". */
  lemma EditAcceptsEmptyTitle(ts: seq<Task>, k: nat)
    requires k < |ts|
    ensures var r := EditTitle(ts, ts[k].id, "");
            |r| == |ts| && r[k] == ts[k].(title := "")
    ensures AddTask(ts, ts[k].id, "") == ts
  {
  }

  /** A second edit of the same task overrides the first. */
  lemma EditTitleTwice(ts: seq<Task>, id: string, a: string, b: string)
    ensures EditTitle(EditTitle(ts, id, a), id, b) == EditTitle(ts, id, b)
  {
    var l := EditTitle(EditTitle(ts, id, a), id, b);
    var r := EditTitle(ts, id, b);
    forall i | 0 <= i < |ts| ensures l[i] == r[i] {
      assert l[i].title == r[i].title;
    }
  }

  /** The updates keep the ids, so they keep them unique. */
  lemma UpdatesKeepIdsUnique(ts: seq<Task>, id: string, title: string)
    requires UniqueIds(ts)
    ensures UniqueIds(ToggleImportance(ts, id))
    ensures UniqueIds(ToggleCompletion(ts, id))
    ensures UniqueIds(EditTitle(ts, id, title))
  {
    var a, b, c := ToggleImportance(ts, id), ToggleCompletion(ts, id), EditTitle(ts, id, title);
    forall i, j | 0 <= i < j < |ts|
      ensures a[i].id != a[j].id && b[i].id != b[j].id && c[i].id != c[j].id
    {
      assert ts[i].id != ts[j].id;
    }
  }

  // ---------------------------------------------------------------------
  // The as-written save path of the edit dialog
  // ---------------------------------------------------------------------

  /** The value the edit dialog hands to `handleEditChange` as its first
      argument `e`: a change event (what the handler's code expects) or a
      plain string (what `EditTask.handleSave` actually passes). */
  datatype EditArg = ChangeEvent(targetValue: string) | PlainString(s: string)

  /** `e.target.value`: on a plain string `e.target` is undefined, so
      reading `.value` throws a TypeError (None). */
  function TargetValue(e: EditArg): (v: Option<string>)
    ensures v.None? <==> e.PlainString?
  {
    match e
    case ChangeEvent(value) => Some(value)
    case PlainString(_) => None
  }

  /** `handleEditChange(e, id)` as written: the `map` evaluates
      `e.target.value` on the first task with id `id`, so a plain string
      throws (None) whenever such a task exists; otherwise the new list. */
  function HandleEditChangeAsWritten(ts: seq<Task>, e: EditArg, id: string): (r: Option<seq<Task>>)
    ensures r.None? <==> HasId(ts, id) && e.PlainString?
    ensures r.Some? && e.ChangeEvent? ==> r.value == EditTitle(ts, id, e.targetValue)
    ensures r.Some? && e.PlainString? ==> r.value == ts
  {
    if !HasId(ts, id) then
      assert EditTitle(ts, id, "") == ts by {
        var r := EditTitle(ts, id, "");
        forall i | 0 <= i < |ts| ensures r[i] == ts[i] { assert ts[i].id != id; }
      }
      Some(ts)
    else
      match TargetValue(e)
      case None => None
      case Some(value) => Some(EditTitle(ts, id, value))
  }

  /** Saving from the dialog as written never changes the title: the call
      throws for every task that exists, whatever the draft. */
  lemma SaveAsWrittenThrows(ts: seq<Task>, k: nat, draft: string)
    requires k < |ts|
    ensures HandleEditChangeAsWritten(ts, PlainString(draft), ts[k].id) == None
    ensures EditTitle(ts, ts[k].id, draft)[k].title == draft
  {
  }

  /** A concrete instance: a list with one task "a" and the draft "b". */
  lemma SaveAsWrittenExample()
    ensures var ts := [Task("1", "a", false, false)];
            HandleEditChangeAsWritten(ts, PlainString("b"), "1") == None
            && EditTitle(ts, "1", "b") == [Task("1", "b", false, false)]
  {
    var ts := [Task("1", "a", false, false)];
    assert HasId(ts, "1") by { assert ts[0].id == "1"; }
    var r := EditTitle(ts, "1", "b");
    assert r[0] == Task("1", "b", false, false);
  }

  // ---------------------------------------------------------------------
  // Finding the task the edit dialog is bound to
  // ---------------------------------------------------------------------

  /** Index `i` holds the first task with id `id`. */
  predicate FirstWithId(ts: seq<Task>, id: string, i: int) {
    0 <= i < |ts| && ts[i].id == id && forall j :: 0 <= j < i ==> ts[j].id != id
  }

  /** The `find` that binds the edit dialog: the first task with that id,
      if any. */
  function Find(ts: seq<Task>, id: string): (r: Option<Task>)
    ensures r.None? <==> !HasId(ts, id)
    ensures r.Some? ==> exists i :: FirstWithId(ts, id, i) && ts[i] == r.value
  {
    if ts == [] then None
    else if ts[0].id == id then
      assert FirstWithId(ts, id, 0);
      Some(ts[0])
    else
      var r := Find(ts[1..], id);
      if r.Some? then
        var i :| FirstWithId(ts[1..], id, i) && ts[1..][i] == r.value;
        assert FirstWithId(ts, id, i + 1);
        r
      else
        assert !HasId(ts, id) by {
          forall i | 0 <= i < |ts| ensures ts[i].id != id {
            if i > 0 { assert ts[i] == ts[1..][i - 1]; }
          }
        }
        None
  }

  // ---------------------------------------------------------------------
  // The search view
  // ---------------------------------------------------------------------

  /** The search test: the lower-cased title includes the lower-cased
      query. */
  predicate Matches(t: Task, query: string) {
    Includes(Lower(t.title), Lower(query))
  }

  /** The predicate `filteredTasks` filters by. */
  function MatchesQuery(query: string): Task -> bool {
    (t: Task) => Matches(t, query)
  }

  /** `filteredTasks`: the tasks whose title contains the query, ignoring
      case, in list order; the list itself is untouched. */
  function Visible(ts: seq<Task>, query: string): (r: seq<Task>)
    ensures IsSubsequence(r, ts)
    ensures forall i :: 0 <= i < |r| ==> Matches(r[i], query) && r[i] in ts
    ensures forall i :: 0 <= i < |ts| && Matches(ts[i], query) ==> ts[i] in r
  {
    FilterSubsequence(ts, MatchesQuery(query));
    FilterMembers(ts, MatchesQuery(query));
    Filter(ts, MatchesQuery(query))
  }

  /** The view holds each matching task exactly as often as the list does,
      and no other task. */
  lemma VisibleCounts(ts: seq<Task>, query: string)
    ensures forall t :: multiset(Visible(ts, query))[t] == if Matches(t, query) then multiset(ts)[t] else 0
  {
    FilterCounts(ts, MatchesQuery(query));
  }

  /** The empty query shows the whole list, in order. */
  lemma VisibleEmptyQuery(ts: seq<Task>)
    ensures Visible(ts, "") == ts
  {
    forall i | 0 <= i < |ts| ensures Matches(ts[i], "") {
      IncludesEmpty(Lower(ts[i].title));
    }
    FilterAll(ts, MatchesQuery(""));
  }

  /** The search ignores case on both sides: changing the case of letters in
      the title or in the query does not change whether the task matches. */
  lemma CaseInsensitive(t: Task, title': string, query: string, query': string)
    requires SameUpToCase(t.title, title') && SameUpToCase(query, query')
    ensures Matches(t, query) == Matches(t.(title := title'), query')
  {
    LowerEqualIff(t.title, title');
    LowerEqualIff(query, query');
  }

  /** Two queries that agree up to case show the same view. */
  lemma {:induction false} VisibleCaseInsensitive(ts: seq<Task>, query: string, query': string)
    requires SameUpToCase(query, query')
    ensures Visible(ts, query) == Visible(ts, query')
  {
    if ts != [] {
      CaseInsensitive(ts[0], ts[0].title, query, query');
      assert ts[0].(title := ts[0].title) == ts[0];
      VisibleCaseInsensitive(ts[1..], query, query');
    }
  }

  /** Case is ignored on both sides: "MILK" finds "buy milk". */
  lemma MilkMatches(id: string, importance: bool, completed: bool)
    ensures Matches(Task(id, "buy milk", importance, completed), "MILK")
  {
    assert Lower("MILK") == "milk";
    assert Lower("buy milk") == "buy milk";
    assert OccursAt("buy milk", "milk", 4);
  }

  // ---------------------------------------------------------------------
  // The count badge
  // ---------------------------------------------------------------------

  /** The badge text for a list of `n` tasks. */
  function CountLabel(n: nat): (s: string)
    ensures n == 0 <==> s == "No Tasks"
    ensures n == 1 <==> s == "1 Task"
    ensures n >= 2 ==> s == Decimal(n) + " Tasks"
  {
    if n == 0 then "No Tasks"
    else if n == 1 then "1 Task"
    else
      var s := Decimal(n) + " Tasks";
      assert s[0] == Decimal(n)[0] && s[0] != 'N';
      assert |s| > |"1 Task"|;
      s
  }

  /** Different counts give different badges. */
  lemma CountLabelInjective(m: nat, n: nat)
    requires CountLabel(m) == CountLabel(n)
    ensures m == n
  {
    if m >= 2 && n >= 2 {
      var a, b := Decimal(m), Decimal(n);
      assert a == (a + " Tasks")[..|a| ];
      assert |a| == |b|;
      assert b == (b + " Tasks")[..|b| ];
      DecimalInjective(m, n);
    }
  }
}
