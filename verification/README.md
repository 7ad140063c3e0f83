# Task manager page state, in Dafny

This project models the task list behind the home page of a small Next.js
to-do application. The page holds two pieces of state: the list of tasks and
the text typed into the "new task" box. Three click handlers replace that
state:

- `addTask` ignores a title that is empty once trimmed. Otherwise it appends a
  new, uncompleted task and clears the box.
- `toggleTask(id)` flips `completed` on the tasks with that id.
- `deleteTask(id)` drops the tasks with that id.

Every handler builds a fresh array from the old one, using spread, `map` or
`filter`. So each is modelled as a total Dafny function over values, with
lemmas about it.

Files:

- `task_types.dfy` (module `TaskTypes`) holds `Priority`, `Task` and a small
  `Option`.
- `js_string.dfy` (module `JsString`) holds JavaScript's `String.prototype.trim`,
  with the white-space set of ECMA-262. The emptiness test of `addTask` depends
  on it.
- `home_page.dfy` (module `HomePage`) holds the page state `Page(tasks, title)`,
  the three handlers and their properties.

`toggleTask` and `deleteTask` never read or write the input text, so they are
modelled as functions from the list to the list. `addTask` uses both pieces of
state and maps one `Page` to the next.

The id that `uuidv4()` generates is passed in as the parameter `newId`. The
precondition `!IsBlank(s.title) ==> !HasId(s.tasks, newId)` stands for the
generator never producing an id that is already in use. It binds only when the
title is not blank, because a blank title returns before any id is generated.

`Task.priority` has type `Option<Priority>`. The declared interface makes
`priority` required (src/types/task.ts:7), but the object that `addTask` builds
has no `priority` field (src/app/page.tsx:23-27). As written, that literal is
annotated `Task` while lacking a required property, so the source does not
type-check under TypeScript; at run time the object simply has no priority. A
newly added task therefore has `priority == None`. Nothing in the code supplies
a default priority, so the model does not invent one.

## Model

| member | source | states |
|---|---|---|
| `JsString.TrimStart` | src/app/page.tsx:22 | the result is a suffix of the input; the dropped prefix is all white space; the result does not start with white space |
| `JsString.TrimEnd` | src/app/page.tsx:22 | the result is a prefix of the input; the dropped suffix is all white space; the result does not end with white space |
| `JsString.Trim` | src/app/page.tsx:22 | `title.trim()` is a contiguous slice of the title; only white space is cut from either side; a non-empty result starts and ends with a non-white-space character |
| `JsString.TrimEmptyIffBlank` | src/app/page.tsx:22 | `title.trim() === ""` holds exactly when every character of the title is white space, in both directions |
| `HomePage.AddTask` | src/app/page.tsx:21-30 | a blank title leaves the list and the input text unchanged; any other title leaves the old tasks in place and appends exactly one task with the supplied id, the title exactly as typed (not trimmed), `completed == false` and no priority; the input text becomes empty; unique ids stay unique |
| `HomePage.AppendFreshUniqueIds` | src/app/page.tsx:24-28 | appending a task whose id is not in the list keeps ids unique |
| `HomePage.AddedIdIsFresh` | src/app/page.tsx:24 | after a successful add, the new task's id differs from the id of every task that was there before |
| `HomePage.DeleteUndoesAdd` | src/app/page.tsx:28-41 | deleting the id of a freshly added task gives back the list from before the add |
| `HomePage.ToggleTask` | src/app/page.tsx:32-38 | same length and order; at each position the id, title and priority are unchanged, and `completed` is negated exactly when the task's id is the given one |
| `HomePage.ToggleUnknownId` | src/app/page.tsx:34-36 | toggling an id that no task has returns an equal list |
| `HomePage.ToggleTwice` | src/app/page.tsx:34-36 | toggling the same id twice returns the original list |
| `HomePage.TogglePreservesUniqueIds` | src/app/page.tsx:34-36 | toggling keeps ids unique |
| `HomePage.ToggleAppend` | src/app/page.tsx:34-36 | toggling works task by task: toggling a concatenation gives the concatenation of the toggled parts |
| `HomePage.DeleteTask` | src/app/page.tsx:40-42 | the result is no longer than the input and contains no task with the id; a task is in the result exactly when it is in the input and has a different id |
| `HomePage.DeleteIsSubsequence` | src/app/page.tsx:41 | the kept tasks stay in their original relative order |
| `HomePage.DeleteAppend` | src/app/page.tsx:41 | deleting works task by task: deleting from a concatenation gives the concatenation of the filtered parts |
| `HomePage.DeleteUnknownId` | src/app/page.tsx:41 | deleting an id that no task has leaves the list unchanged |
| `HomePage.DeleteIdempotent` | src/app/page.tsx:41 | a second delete of the same id changes nothing |
| `HomePage.DeleteRemovesOne` | src/app/page.tsx:41 | when ids are unique, deleting the id of the task at position k removes exactly that task, so the length drops by one |
| `HomePage.DeletePreservesUniqueIds` | src/app/page.tsx:41 | deleting keeps ids unique |
| `HomePage.DeleteAfterToggle` | src/app/page.tsx:34-41 | toggling a task and then deleting it gives the same list as deleting it straight away |

## Left out

- `loadTasks` and `saveTasks` (src/utils/storage.ts) are not modelled. They wrap the browser's `localStorage` with `JSON.parse` and `JSON.stringify`, which are foreign calls. So the load/save round trip is not modelled either.
- The two `useEffect` hooks (src/app/page.tsx:13-19) are not modelled. They are React wiring that loads the list on mount and saves it after each change.
- The JSX rendering is not modelled: src/app/page.tsx:44-74, src/components/TaskItem.tsx and src/app/layout.tsx. This includes the `onChange` binding that copies the input box into `title` (src/app/page.tsx:51), which is a plain replacement of the title.
- src/app/DarkModeToggle.tsx (theme switching) is not modelled. It is DOM and `localStorage` code with no task logic.
- `uuidv4()` is not modelled. It is a foreign random-id generator, replaced by the caller-supplied `newId` and its freshness precondition.
- Filtering, sorting, due dates and an overdue status are not modelled: nothing in this code implements them.
- JavaScript strings are sequences of UTF-16 code units, while Dafny strings are sequences of Unicode scalar values. Every character that `trim` removes lies in the Basic Multilingual Plane, so the difference does not affect the emptiness test.
