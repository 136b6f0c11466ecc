# Task manager site: the domain core in Dafny

This project models the domain rules of a Django task-tracking site and proves
properties about them. The site has workers, teams, projects and tasks. The
model covers:

- the derived worker name and how a worker is displayed;
- the checks every `save` of a task or project runs;
- who may be assigned to a task;
- the completion toggles for tasks and projects;
- taking a task and dropping it;
- the filters and orderings of the task list.

The current time is never read from a clock. The caller passes `now` (a
date-time) for task checks and `today` (a date) for project checks.

Layout:

- `entities.dfy`: module `Time` holds date-times, ordered by date and then by
  time of day; `DateTime.date` is Python's `datetime.date()`. Module `Entities`
  holds the records `Worker`, `Team`, `Project` and `Task`. Primary keys are
  positive, as the database assigns them, so a set key is always truthy.
- `names.dfy`: module `Names` holds Python's `str.strip` over the characters
  `str.isspace` accepts, `Worker.create_full_name`, and `Worker.__str__`.
  Module `NameExamples` holds the worked examples from the tests.
- `validation.dfy`: module `Validation` holds `Task.clean`, the unique
  `(name, project)` constraint, the collected errors of `Task.full_clean`, and
  `Project.clean`.
- `eligibility.dfy`: module `Eligibility` holds the branch of `task_assign`
  that picks the workers a task may be assigned to. It is an explicit
  four-way match over which of team and leader the project has. A task whose
  project row is missing, or whose project names a team with no row, fails,
  because the view follows those keys.
- `task_list.dfy`: module `TaskList` holds `TaskListView.get_queryset`: the
  "my" filter, the status filter and the two allowed orderings. The input is
  all tasks in their default order, which is ascending by deadline
  (`Task.Meta.ordering`).
- `store.dfy`: module `Store` holds class `Database`. It has one map per table
  and one set of pairs per many-to-many relation (team members, task
  assignees). Its methods are the `save` methods and the views that change
  state. `toggle_completed` is specified by the function `Toggle` on the
  task table. `Valid()` is the invariant every method keeps; it holds the
  predicate `Consistent` over the six tables, which asks that:
  - every stored full name is derived from the stored names;
  - every foreign key between the modelled tables resolves: team leaders and
    members, project leaders and teams, task projects and task assignees;
  - no two tasks of one project share a name.

Some behaviour of the code is easy to misread. The model follows the code
here:

- `toggle_completed` saves the task, and the save re-runs validation. So
  the toggle is refused while the stored task fails validation. An overdue
  task, for example, cannot be marked completed. It is not an unconditional
  flip.
- Reopening a completed project also saves it. The save fails, with an error
  the view does not catch, once the project's deadline has passed.
- Marking a project completed can also be refused because of a past
  deadline, not only because of open tasks.
- A project with neither a team nor a leader makes `task_assign` fail,
  because the queryset variable is never bound. The model gives the error
  `NoTeamOrLeader`, not an empty set.
- Tasks without a project never collide on their name, because NULLs are
  distinct in SQL.
- `full_clean` collects the error of `Task.clean` together with the error of
  the unique constraint. Within `Task.clean`, only the first failing rule is
  reported.
- The full name drops a blank part rather than leaving a stray space.

## Model

| member | source | states |
|---|---|---|
| `Names.TrimStart` | tasks/models.py:38 | The result is a suffix of the input. Everything dropped is whitespace. The result does not start with whitespace. |
| `Names.TrimEnd` | tasks/models.py:38 | The result is a prefix of the input. Everything dropped is whitespace. The result does not end with whitespace. |
| `Names.Strip` | tasks/models.py:38 | `strip()` gives the empty string exactly when the input is whitespace only. Otherwise the result starts and ends with a non-whitespace character. |
| `Names.StripSlice` | tasks/models.py:38 | What `strip()` keeps is one contiguous slice of the input, with only whitespace on either side of it. |
| `Names.StripUnchanged` | tasks/models.py:38 | A string that neither starts nor ends with whitespace is left unchanged by `strip()`. |
| `Names.StripIdempotent` | tasks/models.py:38 | Stripping twice is stripping once. |
| `Names.Cleaned` | tasks/models.py:37-38 | The comprehension keeps no more parts than it is given. Every kept part is non-empty and already stripped. |
| `Names.CleanedKeeps` | tasks/models.py:37-38 | The stripped form of every non-blank part is kept. Every kept part is the stripped form of some non-blank input part. |
| `Names.CleanedPair` | tasks/models.py:37-38 | Cleaning `[last_name, first_name]` keeps the stripped form of each non-blank name, last name first. |
| `Names.Join` | tasks/models.py:39 | `" ".join`. It is specified by `Names.JoinPair`, for the at most two parts the full name ever joins. |
| `Names.JoinPair` | tasks/models.py:39 | Joining at most two non-empty parts with `" "` puts exactly one space between them and none around them. |
| `Names.JoinCleanedPair` | tasks/models.py:37-39 | Joining the cleaned `[last_name, first_name]` gives the stripped last name, a space and the stripped first name, with a blank part dropped. The result is empty exactly when both names are blank. |
| `Names.FullName` | tasks/models.py:36-39 | The full name is the stripped last name, a space and the stripped first name; a blank part is dropped with its space. It is empty exactly when both names are blank, and it never starts or ends with whitespace. |
| `Names.FullNameIsStripped` | tasks/models.py:36-39 | Stripping a full name leaves it unchanged. |
| `Names.FullNameOfStripped` | tasks/models.py:36-39 | The full name depends on the names only through their stripped forms. |
| `Names.Display` | tasks/models.py:31-34 | `Worker.__str__` as written. It is specified by `Names.DisplayOfSaved` for saved workers and by `Names.BlankNamesDisplayEmpty` for names that are a single space. |
| `Names.DisplayOfSaved` | tasks/models.py:31-34 | For a saved worker, `str()` is the username when either name is empty. When both names are non-blank, it is the stripped last and first names joined by a space. |
| `Names.BlankNamesDisplayEmpty` | tasks/models.py:31-34 | A saved worker whose names are single spaces is displayed as the empty string, not by username. |
| `Names.DisplayNonBlank` | tasks/models.py:31-34 | The corrected display tests the names after stripping. For a saved worker it is the username when either name is blank, and otherwise the stripped last name, a space and the stripped first name. It is never empty when the username is not. It differs from `__str__` only for whitespace-only names. |
| `Names.OneBlankNameDiffers` | tasks/models.py:31-39 | When both names are non-empty and exactly one is blank, `__str__` shows the other stripped name alone, which is never empty, and the corrected display shows the username. |
| `Names.BlankNamesDisplayUsername` | tasks/models.py:31-34 | The worker with single-space names that `__str__` shows as the empty string is shown by username by the corrected display. |
| `NameExamples.FullNameExample` | tasks/tests/test_models.py:10-18 | Last name "User" and first name "Test" give the full name "User Test". |
| `NameExamples.DisplayExamples` | tasks/tests/test_models.py:20-51 | That worker is displayed as "User Test". A worker without names is displayed by username. |
| `Validation.CleanTask` | tasks/models.py:100-109 | `Task.clean` reports `PastDeadline` exactly when the deadline is before `now`. It reports `DeadlineExceedsProject` exactly when the deadline is not past, the task has a project, and the deadline's date is later than the project deadline. A date equal to the project deadline passes. No other error occurs. |
| `Validation.TaskErrors` | tasks/models.py:84-113 | Saving a task collects these errors. `PastDeadline` appears exactly when the deadline is past. `DeadlineExceedsProject` appears exactly when only the project-deadline rule fails. `DuplicateNameInProject` appears exactly when another stored task has the same name and the same non-null project. At most two errors appear. |
| `Validation.Collides` | tasks/models.py:84-91 | The unique `(name, project)` constraint: another stored task has the same name and the same non-null project. `Validation.TaskErrors` states that it is exactly when `DuplicateNameInProject` is reported. |
| `Validation.SaveKeepsUniqueNames` | tasks/models.py:84-91 | Storing a task that does not collide keeps task names unique within every project. |
| `Validation.TaskErrorsIgnoreOwnRow` | tasks/models.py:84-91 | The constraint check leaves out the task's own row. Whatever is stored under the task's key never changes the errors for saving it. |
| `Validation.NoProjectNeverDuplicate` | tasks/models.py:84-91 | A task without a project is never refused as a duplicate, so such tasks may share a name. |
| `Validation.TaskErrorsIgnoreCompletion` | tasks/models.py:100-113 | Validation gives the same errors whatever the completion flag is. |
| `Validation.TaskErrorsMonotoneInTime` | tasks/models.py:100-102 | A task valid at some instant is valid at every earlier instant. |
| `Validation.CleanProject` | tasks/models.py:204-211 | `Project.clean` reports `PastDeadline` exactly when the deadline is before `today`. It reports `IncompleteTasksExist` exactly when the deadline is not past, the project is marked completed, and one of its stored tasks is open. Otherwise it reports nothing. |
| `Validation.HasIncompleteTasks` | tasks/models.py:208 | `self.tasks.filter(is_completed=False).exists()`: some stored task of the project is open. `Validation.CleanProject` states that it is exactly what decides `IncompleteTasksExist`. |
| `Validation.CompletionBlockedByOpenTask` | tasks/models.py:207-211 | A project marked completed that owns an open task is always refused. |
| `Validation.CompletionAllowedWhenTasksDone` | tasks/models.py:205-211 | A project with no tasks, or only completed ones, may be marked completed while its deadline has not passed. |
| `Validation.ReopenOnlyChecksDeadline` | tasks/models.py:204-211 | Marking a project not completed is refused only for a past deadline. |
| `Eligibility.StaffingOf` | tasks/views.py:142-151 | The four cases are: team and leader, leader only, team only, neither. They are tested in the view's order and carry the project's own team and leader. |
| `Eligibility.EligibleWorkers` | tasks/views.py:137-153 | The eligible workers are always existing workers. The result is `TaskNotFound` exactly when the task does not exist. |
| `Eligibility.ProjectNotFoundIff` | tasks/views.py:141 | The result is `ProjectNotFound` exactly when the task exists and names a project that has no row. |
| `Eligibility.TeamNotFoundIff` | tasks/views.py:141-151 | The result is `TeamNotFound` exactly when the task's project exists and names a team that has no row. A missing leader row never fails. |
| `Eligibility.NoProjectAllWorkers` | tasks/views.py:152-153 | A task without a project makes every worker eligible. |
| `Eligibility.TeamAndLeaderMembership` | tasks/views.py:142-146 | With team and leader, a worker is eligible exactly when they are a team member or the project leader. The team's own leader is not added. |
| `Eligibility.TeamAndLeaderUnion` | tasks/views.py:142-146 | With team and leader, the eligible set is the team's members united with the project leader, without duplicates. |
| `Eligibility.LeaderOnlyExactlyLeader` | tasks/views.py:147-148 | A leader-only project makes exactly its leader eligible. |
| `Eligibility.TeamMembers` | tasks/views.py:151 | `Worker.objects.filter(Q(teams=team))`: the existing workers paired with the team. It is specified by `Eligibility.TeamOnlyExactlyMembers`. |
| `Eligibility.TeamOnlyExactlyMembers` | tasks/views.py:149-151 | A team-only project makes exactly that team's members eligible. |
| `Eligibility.UnstaffedFails` | tasks/views.py:141-163 | A project with neither team nor leader gives the error `NoTeamOrLeader` instead of a set. |
| `Eligibility.ThreeWorkerScenario` | tasks/views.py:141-151 | Team {A, B} with leader C gives {A, B, C}; leader C alone gives {C}. |
| `TaskList.Filter` | tasks/views.py:67-74 | One queryset filter. It is specified by `TaskList.FilterCount`, `TaskList.FilterMember`, `TaskList.FilterIsSubsequence` and `TaskList.FilterKeepsSorted`. |
| `TaskList.FilterCount` | tasks/views.py:67-74 | A queryset filter keeps every matching row as often as it occurs and drops every other row. |
| `TaskList.FilterMember` | tasks/views.py:67-74 | Every row a filter returns is an input row that matches. |
| `TaskList.FilterIsSubsequence` | tasks/views.py:67-74 | A filter keeps the relative order of the rows. |
| `TaskList.FilterKeepsSorted` | tasks/views.py:67-74 | Filtering a list sorted by deadline leaves it sorted. |
| `TaskList.InsertPermutes` | tasks/views.py:76-83 | Each insertion step of the sort adds exactly the inserted row, whatever the input order. |
| `TaskList.InsertSorted` | tasks/views.py:76-83 | Inserting into a sorted list adds exactly that row and keeps the list sorted. |
| `TaskList.SortByDeadline` | tasks/views.py:76-83 | `order_by("deadline")` or `order_by("-deadline")`. It is specified by `TaskList.SortByDeadlineSorted`. |
| `TaskList.SortByDeadlineSorted` | tasks/views.py:76-83 | The deadline sort gives a permutation of its input, sorted ascending or descending. |
| `TaskList.ByAssignee` | tasks/views.py:67-68 | The `my` filter. It is specified by `TaskList.ByAssigneeCount`. |
| `TaskList.ByAssigneeCount` | tasks/views.py:67-68 | `my == "1"` keeps exactly the tasks assigned to the user. Any other value keeps all tasks. |
| `TaskList.ByStatus` | tasks/views.py:70-74 | The status filter. It is specified by `TaskList.ByStatusCount`. |
| `TaskList.ByStatusCount` | tasks/views.py:70-74 | `"completed"` keeps exactly the completed tasks and `"uncompleted"` exactly the open ones. Any other status, or none, keeps all. |
| `TaskList.ByOrdering` | tasks/views.py:76-83 | The allowed orderings. It is specified by `TaskList.ByOrderingSpec`. |
| `TaskList.ByOrderingSpec` | tasks/views.py:76-83 | `"deadline"` sorts ascending and `"-deadline"` descending. Any other ordering changes nothing. In every case the rows are the same. |
| `TaskList.ListTasks` | tasks/views.py:61-85 | `TaskListView.get_queryset`. It is specified by `TaskList.ListTasksContents`, `TaskList.ListTasksOrder` and `TaskList.DefaultOrderAscending`. |
| `TaskList.ListTasksContents` | tasks/views.py:61-85 | The list holds each task that meets the "my" and status conditions as often as it is stored, and no other task. |
| `TaskList.ListTasksOrder` | tasks/views.py:76-85 | An allowed ordering sorts the list in that direction. Otherwise the list is a subsequence of all tasks. |
| `TaskList.DefaultOrderAscending` | tasks/models.py:82-83 | Tasks come in default order, ascending by deadline. So the list is sorted ascending unless `"-deadline"` is requested. |
| `Store.Database.SaveWorker` | tasks/models.py:41-44 | Every save overwrites `full_name` with the full name of the current names and writes the row. The derived-name invariant is kept. |
| `Store.Database.SaveTask` | tasks/models.py:111-113 | Every save, on creation or update, validates first. The row is written exactly when there are no errors; otherwise the table is unchanged. |
| `Store.Database.SaveProject` | tasks/models.py:213-215 | Every save, on creation or update, runs `Project.clean`. The row is written exactly when it passes. |
| `Store.Toggle` | tasks/views.py:119-127 | `TaskNotFound` exactly when the task is missing. For a stored task, the toggle succeeds exactly when the stored task passes validation at `now`. Otherwise it is refused with exactly those validation errors. A successful toggle negates that task's flag and changes nothing else. A refused or missing toggle leaves the table as it was. Every task's project still resolves afterwards. |
| `Store.ToggleTwiceRestores` | tasks/views.py:120-127 | Two toggles at the same instant restore the table when the first succeeds. When it does not, the second toggle gives the same outcome. |
| `Store.Database.ToggleCompleted` | tasks/views.py:119-127 | The outcome and the new task table are exactly those `Toggle` gives for the old table, and the invariant is kept. |
| `Store.Database.TaskTake` | tasks/views.py:172-179 | The worker becomes an assignee and every other pair is unchanged. Taking a task already taken changes nothing. A missing task or worker changes nothing. |
| `Store.Database.TaskRemoveFromMe` | tasks/views.py:181-187 | The worker stops being an assignee and every other pair is unchanged. Removing an absent assignee changes nothing. |
| `Store.Database.ProjectToggleCompleted` | tasks/views.py:477-492 | A completed project is reopened and saved, which fails only for a past deadline. An open project is saved as completed unless `Project.clean` refuses. An open task always refuses, and then the stored project stays not completed. A refused save never changes the table. |

## Left out

- HTTP plumbing is not modelled: `render`, `redirect`, the `next` and `HTTP_REFERER` handling, `login_required`, `messages.error`, pagination, context dictionaries and `get_absolute_url`. The counts on the index page are also left out.
- The name search of the task list (`name__icontains`) is left out. It depends on the database's Unicode case folding. The worker search (`full_name__icontains`) is left out for the same reason.
- `task_assign` is modelled only up to the eligible queryset. The assignment form's validation and save are not modelled.
- Of what `full_clean` checks, the model keeps `clean` and the `(name, project)` constraint. The field validators are not modelled: maximum lengths, required fields, choices, foreign keys that resolve, and the unique names of projects, teams, task types and positions. The store's methods instead require that a saved record's foreign keys exist.
- `Worker.position` and `Task.type` are not checked to resolve, because positions and task types have no table in the model. They are carried as plain ids.
- Store.Database.SaveWorker: never refuses, because the field validators `Worker.full_clean` runs are not modelled. One example is `full_name`'s 150-character limit against first and last names of up to 150 characters each.
- Deletion, and the cascade and set-null referential actions, are left out: they are ORM behaviour.
- The create, update and delete screens for teams, team members, positions and task types are left out. The store starts empty, or in any state that satisfies `Valid()`.
- Clocks and time zones are left out: `now` and `today` are parameters. The date of a date-time is taken in one fixed time zone. The time of day is an unbounded natural number, which orders instants the same way.
- The database may return tasks with equal deadlines in any order. The model sorts them with a stable insertion sort, so the proved properties are only that the list is sorted and is a permutation of its input.
- Creating a project that is already marked completed is modelled as passing the open-task check, because no task can refer to an unsaved project. How the framework's reverse relation behaves on an unsaved instance is not modelled.
- Concurrency is left out: the transactional read-validate-write of the database and racing requests. Every method runs alone.
- Failed lookups (`get_object_or_404`, `Task.objects.get`, `Project.objects.get`, `Worker.objects.get`) appear only as not-found outcomes. HTTP 404 and 500 responses are not modelled.

## Findings

| source | as written | input that shows it | evidently intended | confidence | as-written member | corrected member |
|---|---|---|---|---|---|---|
| tasks/models.py:31-34 | `__str__` tests the raw names for emptiness and then returns the derived `full_name`. | A worker saved with first name `" "` and last name `" "`: both names are non-empty, and `full_name` is `""`. | Treat a whitespace-only name as missing, as an empty one already is, and show the username then (`Names.OneBlankNameDiffers` shows where this departs from `__str__` beyond the empty full name). | low, not executed | `Names.BlankNamesDisplayEmpty` | `Names.DisplayNonBlank` |
