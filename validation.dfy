/** What `full_clean` checks when a Task or a Project is saved
    (tasks/models.py): `Task.clean`, the unique (name, project) constraint of
    `Task.Meta`, and `Project.clean`. The reference time is a parameter: `now`
    for tasks (`timezone.now()`), `today` for projects
    (`timezone.localdate()`). */
module Validation {
  import opened Time
  import opened Entities

  /** The ways a save is refused. */
  datatype ValidationError =
    | PastDeadline            // the deadline lies before the reference time
    | DeadlineExceedsProject  // the task's date is later than its project's deadline
    | DuplicateNameInProject  // another task of the same project has this name
    | IncompleteTasksExist    // a project marked completed still owns an open task

  /** The stored project a task points to, if it has one. */
  function ProjectOf(t: Task, projects: map<ProjectId, Project>): (r: Option<Project>)
    requires t.project.Some? ==> t.project.value in projects
    ensures r.Some? <==> t.project.Some?
  {
    if t.project.Some? then Some(projects[t.project.value]) else None
  }

  /** `Task.clean`: the first rule the task breaks, if any. The deadline is
      compared with `now` before the project is looked at. */
  function CleanTask(t: Task, project: Option<Project>, now: DateTime): (r: Option<ValidationError>)
    ensures r == Some(PastDeadline) <==> Before(t.deadline, now)
    ensures r == Some(DeadlineExceedsProject)
            <==> !Before(t.deadline, now) && project.Some? && t.deadline.date > project.value.deadline
    ensures r.Some? ==> r.value == PastDeadline || r.value == DeadlineExceedsProject
  {
    if Before(t.deadline, now) then Some(PastDeadline)
    else if project.Some? && t.deadline.date > project.value.deadline then Some(DeadlineExceedsProject)
    else None
  }

  /** The unique constraint on (name, project), as `validate_constraints`
      checks it for task `id`: some other stored task has the same name and the
      same project. A task without a project never collides, because NULL is
      distinct from NULL in SQL. */
  predicate Collides(id: TaskId, t: Task, tasks: map<TaskId, Task>)
  {
    t.project.Some?
    && exists other :: other in tasks && other != id
                       && tasks[other].name == t.name && tasks[other].project == t.project
  }

  /** The invariant the constraint keeps in the table: no two tasks of one
      project share a name. */
  ghost predicate UniqueNames(tasks: map<TaskId, Task>)
  {
    forall a, b ::
      (a in tasks && b in tasks && a != b && tasks[a].project.Some? && tasks[a].project == tasks[b].project)
      ==> tasks[a].name != tasks[b].name
  }

  /** `Task.full_clean()` when task `id` is saved as `t`: the error of
      `Task.clean` and the error of the unique constraint, collected in that
      order. The save goes ahead exactly when the list is empty. */
  function TaskErrors(id: TaskId, t: Task, tasks: map<TaskId, Task>,
                      projects: map<ProjectId, Project>, now: DateTime): (r: seq<ValidationError>)
    requires t.project.Some? ==> t.project.value in projects
    ensures (PastDeadline in r) <==> Before(t.deadline, now)
    ensures (DeadlineExceedsProject in r)
            <==> !Before(t.deadline, now) && t.project.Some?
                 && t.deadline.date > projects[t.project.value].deadline
    ensures (DuplicateNameInProject in r) <==> Collides(id, t, tasks)
    ensures IncompleteTasksExist !in r
    ensures |r| <= 2
  {
    var clean := CleanTask(t, ProjectOf(t, projects), now);
    (if clean.Some? then [clean.value] else [])
    + (if Collides(id, t, tasks) then [DuplicateNameInProject] else [])
  }

  /** Storing a task that passed validation keeps task names unique per
      project. */
  lemma {:induction false} SaveKeepsUniqueNames(id: TaskId, t: Task, tasks: map<TaskId, Task>)
    requires UniqueNames(tasks)
    requires !Collides(id, t, tasks)
    ensures UniqueNames(tasks[id := t])
  {
    var tasks' := tasks[id := t];
    forall a, b | a in tasks' && b in tasks' && a != b && tasks'[a].project.Some?
                  && tasks'[a].project == tasks'[b].project
      ensures tasks'[a].name != tasks'[b].name
    {
      if a != id && b != id {
        assert tasks'[a] == tasks[a] && tasks'[b] == tasks[b];
      }
    }
  }

  /** The constraint check leaves out the task's own row, so what is stored
      under `id` never affects whether saving `id` is refused. */
  lemma TaskErrorsIgnoreOwnRow(id: TaskId, t: Task, u: Task, tasks: map<TaskId, Task>,
                               projects: map<ProjectId, Project>, now: DateTime)
    requires t.project.Some? ==> t.project.value in projects
    ensures TaskErrors(id, t, tasks[id := u], projects, now) == TaskErrors(id, t, tasks, projects, now)
  {
    var tasks' := tasks[id := u];
    if Collides(id, t, tasks) {
      var o :| o in tasks && o != id && tasks[o].name == t.name && tasks[o].project == t.project;
      assert o in tasks' && tasks'[o] == tasks[o];
    }
    if Collides(id, t, tasks') {
      var o :| o in tasks' && o != id && tasks'[o].name == t.name && tasks'[o].project == t.project;
      assert o in tasks && tasks'[o] == tasks[o];
    }
  }

  /** Tasks without a project may share a name: the constraint never refuses
      them. */
  lemma NoProjectNeverDuplicate(id: TaskId, t: Task, tasks: map<TaskId, Task>,
                                projects: map<ProjectId, Project>, now: DateTime)
    requires t.project.None?
    ensures DuplicateNameInProject !in TaskErrors(id, t, tasks, projects, now)
  {
  }

  /** Validation does not look at the completion flag: a task passes or fails
      the same way whether it is marked completed or not. */
  lemma TaskErrorsIgnoreCompletion(id: TaskId, t: Task, b: bool, tasks: map<TaskId, Task>,
                                   projects: map<ProjectId, Project>, now: DateTime)
    requires t.project.Some? ==> t.project.value in projects
    ensures TaskErrors(id, t.(isCompleted := b), tasks, projects, now) == TaskErrors(id, t, tasks, projects, now)
  {
  }

  /** A task that passes validation at some instant also passes at every
      earlier instant, against the same store. */
  lemma TaskErrorsMonotoneInTime(id: TaskId, t: Task, tasks: map<TaskId, Task>,
                                 projects: map<ProjectId, Project>, earlier: DateTime, now: DateTime)
    requires t.project.Some? ==> t.project.value in projects
    requires NotAfter(earlier, now)
    requires TaskErrors(id, t, tasks, projects, now) == []
    ensures TaskErrors(id, t, tasks, projects, earlier) == []
  {
  }

  /** Some stored task of project `id` is not completed
      (`self.tasks.filter(is_completed=False).exists()`). */
  predicate HasIncompleteTasks(id: ProjectId, tasks: map<TaskId, Task>)
  {
    exists k :: k in tasks && tasks[k].project == Some(id) && !tasks[k].isCompleted
  }

  /** `Project.clean` for project `id` saved as `p`: the first rule it breaks,
      if any. The open-task rule applies only when `p` is marked completed. */
  function CleanProject(id: ProjectId, p: Project, tasks: map<TaskId, Task>, today: Date): (r: Option<ValidationError>)
    ensures r == Some(PastDeadline) <==> p.deadline < today
    ensures r == Some(IncompleteTasksExist)
            <==> p.deadline >= today && p.isCompleted && HasIncompleteTasks(id, tasks)
    ensures r.Some? ==> r.value == PastDeadline || r.value == IncompleteTasksExist
  {
    if p.deadline < today then Some(PastDeadline)
    else if p.isCompleted && HasIncompleteTasks(id, tasks) then Some(IncompleteTasksExist)
    else None
  }

  /** Marking a project completed is refused while one of its tasks is open,
      whatever its deadline. */
  lemma CompletionBlockedByOpenTask(id: ProjectId, p: Project, tasks: map<TaskId, Task>, today: Date, k: TaskId)
    requires p.isCompleted
    requires k in tasks && tasks[k].project == Some(id) && !tasks[k].isCompleted
    ensures CleanProject(id, p, tasks, today).Some?
  {
  }

  /** A project all of whose tasks are completed (or that has none) can be
      marked completed as long as its deadline has not passed. */
  lemma CompletionAllowedWhenTasksDone(id: ProjectId, p: Project, tasks: map<TaskId, Task>, today: Date)
    requires p.deadline >= today
    requires forall k :: k in tasks && tasks[k].project == Some(id) ==> tasks[k].isCompleted
    ensures CleanProject(id, p.(isCompleted := true), tasks, today) == None
  {
  }

  /** Marking a project not completed is refused only for a past deadline. */
  lemma ReopenOnlyChecksDeadline(id: ProjectId, p: Project, tasks: map<TaskId, Task>, today: Date)
    ensures CleanProject(id, p.(isCompleted := false), tasks, today)
            == if p.deadline < today then Some(PastDeadline) else None
  {
  }
}
