/**
 * The task-list state of the home page (src/app/page.tsx): the list of tasks
 * and the text of the input box, and the three handlers that replace them.
 * Each handler builds a new list from the old one (spread, `map`, `filter`),
 * so each is a total function from the old state to the new.
 */
module HomePage {
  import opened TaskTypes
  import opened JsString

  /** The page's two pieces of state: `tasks` and `title`. */
  datatype Page = Page(tasks: seq<Task>, title: string)

  /** Some task of `tasks` has identifier `id`. */
  predicate HasId(tasks: seq<Task>, id: string) {
    exists i :: 0 <= i < |tasks| && tasks[i].id == id
  }

  /** No two tasks of `tasks` share an identifier. */
  predicate UniqueIds(tasks: seq<Task>) {
    forall i, j :: 0 <= i < j < |tasks| ==> tasks[i].id != tasks[j].id
  }

  /**
   * `addTask`: a title that is empty after trimming changes nothing (the
   * input is not cleared either); any other title is appended, exactly as
   * typed, as a new uncompleted task without a priority, and the input is
   * cleared. `newId` stands for the value `uuidv4()` returns, which does not
   * collide with an identifier already in the list; for a blank title no id
   * is generated, so none is required to be fresh.
   */
  function AddTask(s: Page, newId: string): (r: Page)
    requires !IsBlank(s.title) ==> !HasId(s.tasks, newId)
    ensures IsBlank(s.title) ==> r == s
    ensures !IsBlank(s.title) ==>
      && r.title == []
      && |r.tasks| == |s.tasks| + 1
      && r.tasks[..|s.tasks|] == s.tasks
      && r.tasks[|s.tasks|] == Task(newId, s.title, false, None)
    ensures UniqueIds(s.tasks) ==> UniqueIds(r.tasks)
  {
    TrimEmptyIffBlank(s.title);
    if Trim(s.title) == [] then s
    else
      var t := Task(newId, s.title, false, None);
      AppendFreshUniqueIds(s.tasks, t);
      Page(s.tasks + [t], [])
  }

  /** The callback `toggleTask` maps over the list. */
  function Flip(t: Task, id: string): Task {
    if t.id == id then t.(completed := !t.completed) else t
  }

  /**
   * `toggleTask`: same length and order; exactly the tasks whose identifier
   * is `id` have `completed` negated, and no other field of any task changes.
   */
  function ToggleTask(tasks: seq<Task>, id: string): (r: seq<Task>)
    ensures |r| == |tasks|
    ensures forall i :: 0 <= i < |tasks| ==>
      && r[i].id == tasks[i].id
      && r[i].title == tasks[i].title
      && r[i].priority == tasks[i].priority
      && r[i].completed == (if tasks[i].id == id then !tasks[i].completed else tasks[i].completed)
  {
    if tasks == [] then [] else [Flip(tasks[0], id)] + ToggleTask(tasks[1..], id)
  }

  /**
   * `deleteTask`: keeps the tasks whose identifier is not `id` and no other,
   * and leaves none with that identifier.
   */
  function DeleteTask(tasks: seq<Task>, id: string): (r: seq<Task>)
    ensures |r| <= |tasks|
    ensures !HasId(r, id)
    ensures forall t :: t in r <==> t in tasks && t.id != id
  {
    if tasks == [] then []
    else if tasks[0].id == id then DeleteTask(tasks[1..], id)
    else [tasks[0]] + DeleteTask(tasks[1..], id)
  }

  /** `a` can be obtained from `b` by dropping elements, keeping the order of the rest. */
  predicate IsSubsequence(a: seq<Task>, b: seq<Task>)
    decreases |b|
  {
    if a == [] then true
    else if b == [] then false
    else (a[0] == b[0] && IsSubsequence(a[1..], b[1..])) || IsSubsequence(a, b[1..])
  }

  // ---------------------------------------------------------------- addTask

  /** A task added with a fresh identifier is the only one `deleteTask` of that identifier removes. */
  lemma {:induction false} DeleteUndoesAdd(s: Page, newId: string)
    requires !HasId(s.tasks, newId)
    requires !IsBlank(s.title)
    ensures DeleteTask(AddTask(s, newId).tasks, newId) == s.tasks
  {
    var t := Task(newId, s.title, false, None);
    assert AddTask(s, newId).tasks == s.tasks + [t];
    DeleteAppend(s.tasks, [t], newId);
    DeleteUnknownId(s.tasks, newId);
    assert DeleteTask([t], newId) == [];
  }

  /** The appended task's identifier differs from every identifier already in the list. */
  lemma AddedIdIsFresh(s: Page, newId: string, i: nat)
    requires !HasId(s.tasks, newId)
    requires !IsBlank(s.title)
    requires i < |s.tasks|
    ensures AddTask(s, newId).tasks[|s.tasks|].id != AddTask(s, newId).tasks[i].id
  {
  }

  /** Appending a task whose identifier is fresh keeps identifiers unique. */
  lemma AppendFreshUniqueIds(tasks: seq<Task>, t: Task)
    requires !HasId(tasks, t.id)
    ensures UniqueIds(tasks) ==> UniqueIds(tasks + [t])
  {
  }

  // ------------------------------------------------------------- toggleTask

  /** Toggling an identifier no task has returns an equal list. */
  lemma ToggleUnknownId(tasks: seq<Task>, id: string)
    requires !HasId(tasks, id)
    ensures ToggleTask(tasks, id) == tasks
  {
  }

  /** Toggling the same identifier twice restores the list. */
  lemma ToggleTwice(tasks: seq<Task>, id: string)
    ensures ToggleTask(ToggleTask(tasks, id), id) == tasks
  {
  }

  /** `toggleTask` keeps identifiers unique. */
  lemma TogglePreservesUniqueIds(tasks: seq<Task>, id: string)
    requires UniqueIds(tasks)
    ensures UniqueIds(ToggleTask(tasks, id))
  {
  }

  /** `toggleTask` distributes over concatenation: each task is toggled on its own. */
  lemma ToggleAppend(a: seq<Task>, b: seq<Task>, id: string)
    ensures ToggleTask(a + b, id) == ToggleTask(a, id) + ToggleTask(b, id)
  {
  }

  // ------------------------------------------------------------- deleteTask

  /** Deleting an identifier no task has leaves the list unchanged. */
  lemma {:induction false} DeleteUnknownId(tasks: seq<Task>, id: string)
    requires !HasId(tasks, id)
    ensures DeleteTask(tasks, id) == tasks
  {
    if tasks != [] {
      assert tasks[0].id != id;
      assert !HasId(tasks[1..], id) by {
        forall i | 0 <= i < |tasks[1..]| ensures tasks[1..][i].id != id {
          assert tasks[1..][i] == tasks[i + 1];
        }
      }
      DeleteUnknownId(tasks[1..], id);
    }
  }

  /** A second `deleteTask` of the same identifier is a no-op. */
  lemma DeleteIdempotent(tasks: seq<Task>, id: string)
    ensures DeleteTask(DeleteTask(tasks, id), id) == DeleteTask(tasks, id)
  {
    DeleteUnknownId(DeleteTask(tasks, id), id);
  }

  /** The tasks `deleteTask` keeps stay in their original relative order. */
  lemma {:induction false} DeleteIsSubsequence(tasks: seq<Task>, id: string)
    ensures IsSubsequence(DeleteTask(tasks, id), tasks)
  {
    if tasks != [] {
      DeleteIsSubsequence(tasks[1..], id);
      var rest := DeleteTask(tasks[1..], id);
      if tasks[0].id != id {
        var r := [tasks[0]] + rest;
        assert r[0] == tasks[0] && r[1..] == rest;
      } else {
        SubsequenceOfTail(rest, tasks);
      }
    }
  }

  /** `deleteTask` distributes over concatenation: each task is kept or dropped on its own. */
  lemma {:induction false} DeleteAppend(a: seq<Task>, b: seq<Task>, id: string)
    ensures DeleteTask(a + b, id) == DeleteTask(a, id) + DeleteTask(b, id)
  {
    if a == [] {
      assert a + b == b;
    } else {
      assert (a + b)[0] == a[0];
      assert (a + b)[1..] == a[1..] + b;
      DeleteAppend(a[1..], b, id);
    }
  }

  /** A slice none of whose tasks has identifier `id`. */
  lemma NoIdInSlice(tasks: seq<Task>, id: string, lo: nat, hi: nat)
    requires lo <= hi <= |tasks|
    requires forall i :: lo <= i < hi ==> tasks[i].id != id
    ensures !HasId(tasks[lo..hi], id)
  {
    forall i | 0 <= i < hi - lo ensures tasks[lo..hi][i].id != id {
      assert tasks[lo..hi][i] == tasks[lo + i];
    }
  }

  /** In a list with unique identifiers, deleting the identifier of the task at `k` removes exactly that task. */
  lemma DeleteRemovesOne(tasks: seq<Task>, id: string, k: nat)
    requires UniqueIds(tasks)
    requires k < |tasks| && tasks[k].id == id
    ensures DeleteTask(tasks, id) == tasks[..k] + tasks[k + 1..]
    ensures |DeleteTask(tasks, id)| == |tasks| - 1
  {
    var pre, post := tasks[..k], tasks[k + 1..];
    assert tasks == pre + ([tasks[k]] + post);
    DeleteAppend(pre, [tasks[k]] + post, id);
    DeleteAppend([tasks[k]], post, id);
    NoIdInSlice(tasks, id, 0, k);
    NoIdInSlice(tasks, id, k + 1, |tasks|);
    DeleteUnknownId(pre, id);
    DeleteUnknownId(post, id);
    assert DeleteTask([tasks[k]], id) == [];
  }

  /** `deleteTask` keeps identifiers unique. */
  lemma DeletePreservesUniqueIds(tasks: seq<Task>, id: string)
    requires UniqueIds(tasks)
    ensures UniqueIds(DeleteTask(tasks, id))
  {
    DeleteIsSubsequence(tasks, id);
    SubsequenceUniqueIds(DeleteTask(tasks, id), tasks);
  }

  /** Toggling a task and then deleting it is the same as deleting it. */
  lemma {:induction false} DeleteAfterToggle(tasks: seq<Task>, id: string)
    ensures DeleteTask(ToggleTask(tasks, id), id) == DeleteTask(tasks, id)
  {
    if tasks != [] {
      var r := ToggleTask(tasks, id);
      assert r[1..] == ToggleTask(tasks[1..], id);
      DeleteAfterToggle(tasks[1..], id);
    }
  }

  // ---------------------------------------------------------- subsequences

  lemma {:induction false} SubsequenceOfTail(a: seq<Task>, b: seq<Task>)
    requires b != [] && IsSubsequence(a, b[1..])
    ensures IsSubsequence(a, b)
  {
  }

  /** Every element of a subsequence is an element of the whole. */
  lemma {:induction false} SubsequenceIn(a: seq<Task>, b: seq<Task>, i: nat)
    requires IsSubsequence(a, b) && i < |a|
    ensures a[i] in b
    decreases |b|
  {
    if a[0] == b[0] && IsSubsequence(a[1..], b[1..]) {
      if i > 0 {
        SubsequenceIn(a[1..], b[1..], i - 1);
        assert a[1..][i - 1] == a[i];
      }
    } else {
      SubsequenceIn(a, b[1..], i);
    }
  }

  /** A subsequence of a list with unique identifiers has unique identifiers. */
  lemma {:induction false} SubsequenceUniqueIds(a: seq<Task>, b: seq<Task>)
    requires IsSubsequence(a, b) && UniqueIds(b)
    ensures UniqueIds(a)
    decreases |b|
  {
    if a != [] {
      assert UniqueIds(b[1..]) by {
        forall i, j | 0 <= i < j < |b[1..]| ensures b[1..][i].id != b[1..][j].id {
          assert b[1..][i] == b[i + 1] && b[1..][j] == b[j + 1];
        }
      }
      if a[0] == b[0] && IsSubsequence(a[1..], b[1..]) {
        SubsequenceUniqueIds(a[1..], b[1..]);
        forall i, j | 0 <= i < j < |a| ensures a[i].id != a[j].id {
          if i == 0 {
            SubsequenceIn(a[1..], b[1..], j - 1);
            assert a[1..][j - 1] == a[j];
            var m :| 0 <= m < |b[1..]| && b[1..][m] == a[j];
            assert b[m + 1] == a[j];
          } else {
            assert a[i] == a[1..][i - 1] && a[j] == a[1..][j - 1];
          }
        }
      } else {
        SubsequenceUniqueIds(a, b[1..]);
      }
    }
  }
}
