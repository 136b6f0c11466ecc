/** The database as the views and the `save` methods change it: one map per
    table and one set of pairs per many-to-many relation. Each method is one
    request or one `save` call; a refused save writes nothing. */
module Store {
  import opened Time
  import opened Entities
  import opened Names
  import opened Validation

  /** What `toggle_completed` ends in. */
  datatype TaskToggle =
    | TaskNotFound                                  // `Task.objects.get` finds no row
    | Toggled(isCompleted: bool)                    // saved with the new flag
    | ToggleRejected(errors: seq<ValidationError>)  // `task.save()` raised; nothing written

  /** What `project_toggle_completed` ends in. */
  datatype ProjectToggle =
    | ProjectNotFound                              // `Project.objects.get` finds no row
    | Reopened                                     // COMPLETE -> INCOMPLETE saved
    | Completed                                    // INCOMPLETE -> COMPLETE saved
    | CompletionRejected(error: ValidationError)   // caught; the user sees an error message
    | ReopenFailed(error: ValidationError)         // raised out of the view; nothing written

  /** Every stored full name is the one `Worker.save` derives. */
  predicate NamesDerived(workers: map<WorkerId, Worker>)
  {
    forall w :: w in workers ==> HasDerivedName(workers[w])
  }

  /** The foreign key from teams to their leader resolves. */
  predicate TeamLeadersResolve(teams: map<TeamId, Team>, workers: map<WorkerId, Worker>)
  {
    forall t :: t in teams && teams[t].leader.Some? ==> teams[t].leader.value in workers
  }

  /** Both sides of every team membership exist. */
  predicate MembersResolve(members: set<(TeamId, WorkerId)>, teams: map<TeamId, Team>, workers: map<WorkerId, Worker>)
  {
    forall m :: m in members ==> m.0 in teams && m.1 in workers
  }

  /** The foreign key from projects to their leader resolves. */
  predicate ProjectLeadersResolve(projects: map<ProjectId, Project>, workers: map<WorkerId, Worker>)
  {
    forall p :: p in projects && projects[p].leader.Some? ==> projects[p].leader.value in workers
  }

  /** The foreign key from projects to their team resolves. */
  predicate ProjectTeamsResolve(projects: map<ProjectId, Project>, teams: map<TeamId, Team>)
  {
    forall p :: p in projects && projects[p].team.Some? ==> projects[p].team.value in teams
  }

  /** Both sides of every task assignment exist. */
  predicate AssigneesResolve(assignees: set<(TaskId, WorkerId)>, tasks: map<TaskId, Task>, workers: map<WorkerId, Worker>)
  {
    forall a :: a in assignees ==> a.0 in tasks && a.1 in workers
  }

  /** What every save keeps: derived full names, foreign keys that resolve,
      and task names unique within a project. */
  ghost predicate Consistent(workers: map<WorkerId, Worker>, teams: map<TeamId, Team>,
                             teamMembers: set<(TeamId, WorkerId)>, projects: map<ProjectId, Project>,
                             tasks: map<TaskId, Task>, assignees: set<(TaskId, WorkerId)>)
  {
    && NamesDerived(workers)
    && TeamLeadersResolve(teams, workers)
    && MembersResolve(teamMembers, teams, workers)
    && ProjectLeadersResolve(projects, workers)
    && ProjectTeamsResolve(projects, teams)
    && ProjectsResolve(tasks, projects)
    && AssigneesResolve(assignees, tasks, workers)
    && UniqueNames(tasks)
  }

  /** Dropping an assignment keeps the tables consistent. */
  lemma DropAssigneeKeepsConsistent(workers: map<WorkerId, Worker>, teams: map<TeamId, Team>,
                                    teamMembers: set<(TeamId, WorkerId)>, projects: map<ProjectId, Project>,
                                    tasks: map<TaskId, Task>, assignees: set<(TaskId, WorkerId)>,
                                    x: (TaskId, WorkerId))
    requires Consistent(workers, teams, teamMembers, projects, tasks, assignees)
    ensures Consistent(workers, teams, teamMembers, projects, tasks, assignees - {x})
  {
    forall a | a in assignees - {x} ensures a.0 in tasks && a.1 in workers {
      assert a in assignees;
    }
  }

  /** Storing a project whose own keys resolve keeps every key into the
      project table resolving. */
  lemma StoreProjectKeepsResolve(id: ProjectId, p: Project, projects: map<ProjectId, Project>,
                                 tasks: map<TaskId, Task>, teams: map<TeamId, Team>,
                                 workers: map<WorkerId, Worker>)
    requires ProjectLeadersResolve(projects, workers) && ProjectTeamsResolve(projects, teams)
    requires ProjectsResolve(tasks, projects)
    requires p.leader.Some? ==> p.leader.value in workers
    requires p.team.Some? ==> p.team.value in teams
    ensures ProjectLeadersResolve(projects[id := p], workers)
    ensures ProjectTeamsResolve(projects[id := p], teams)
    ensures ProjectsResolve(tasks, projects[id := p])
  {
    var projects' := projects[id := p];
    forall t | t in tasks && tasks[t].project.Some? ensures tasks[t].project.value in projects' {
      assert tasks[t].project.value in projects;
    }
    forall q | q in projects' && projects'[q].leader.Some? ensures projects'[q].leader.value in workers {
      if q != id {
        assert projects'[q] == projects[q];
      }
    }
    forall q | q in projects' && projects'[q].team.Some? ensures projects'[q].team.value in teams {
      if q != id {
        assert projects'[q] == projects[q];
      }
    }
  }

  /** The foreign key from tasks to projects resolves. */
  predicate ProjectsResolve(tasks: map<TaskId, Task>, projects: map<ProjectId, Project>)
  {
    forall t :: t in tasks && tasks[t].project.Some? ==> tasks[t].project.value in projects
  }

  /** What `toggle_completed` does to the task table: its outcome and the
      table afterwards. The flag of task `id` is negated and the task saved,
      so the toggle is refused exactly when the stored task fails validation
      at `now`. */
  function Toggle(id: TaskId, tasks: map<TaskId, Task>, projects: map<ProjectId, Project>,
                  now: DateTime): (r: (TaskToggle, map<TaskId, Task>))
    requires ProjectsResolve(tasks, projects)
    ensures r.0 == TaskNotFound <==> id !in tasks
    ensures id in tasks ==> (r.0.Toggled? <==> TaskErrors(id, tasks[id], tasks, projects, now) == [])
    ensures r.0.ToggleRejected? ==> id in tasks && r.0.errors != []
                                    && r.0.errors == TaskErrors(id, tasks[id], tasks, projects, now)
    ensures r.0.Toggled? ==> id in tasks && r.0.isCompleted == !tasks[id].isCompleted
                             && r.1 == tasks[id := tasks[id].(isCompleted := r.0.isCompleted)]
    ensures !r.0.Toggled? ==> r.1 == tasks
    ensures ProjectsResolve(r.1, projects)
  {
    if id !in tasks then (TaskNotFound, tasks)
    else
      var t := tasks[id];
      var errors := TaskErrors(id, t, tasks, projects, now);
      if errors == [] then (Toggled(!t.isCompleted), tasks[id := t.(isCompleted := !t.isCompleted)])
      else (ToggleRejected(errors), tasks)
  }

  /** Toggling a task twice at the same instant restores the table once the
      first toggle went through; a refused or missing toggle is refused the
      same way again. */
  lemma ToggleTwiceRestores(id: TaskId, tasks: map<TaskId, Task>, projects: map<ProjectId, Project>, now: DateTime)
    requires ProjectsResolve(tasks, projects)
    ensures var first := Toggle(id, tasks, projects, now);
            var second := Toggle(id, first.1, projects, now);
            (first.0.Toggled? ==> second.0 == Toggled(!first.0.isCompleted) && second.1 == tasks)
            && (!first.0.Toggled? ==> second == first)
  {
    var first := Toggle(id, tasks, projects, now);
    if first.0.Toggled? {
      var t := tasks[id];
      var flipped := t.(isCompleted := !t.isCompleted);
      TaskErrorsIgnoreOwnRow(id, flipped, flipped, tasks, projects, now);
      TaskErrorsIgnoreCompletion(id, t, !t.isCompleted, tasks, projects, now);
      assert first.1[id] == flipped;
      assert tasks[id := flipped][id := t] == tasks;
    }
  }

  class Database {
    var workers: map<WorkerId, Worker>
    var teams: map<TeamId, Team>
    var teamMembers: set<(TeamId, WorkerId)>
    var projects: map<ProjectId, Project>
    var tasks: map<TaskId, Task>
    var assignees: set<(TaskId, WorkerId)>

    /** The invariant every method keeps: the tables are consistent. */
    ghost predicate Valid()
      reads this
    {
      Consistent(workers, teams, teamMembers, projects, tasks, assignees)
    }

    /** An empty database. */
    constructor ()
      ensures Valid()
      ensures workers == map[] && teams == map[] && teamMembers == {}
      ensures projects == map[] && tasks == map[] && assignees == {}
    {
      workers, teams, teamMembers := map[], map[], {};
      projects, tasks, assignees := map[], map[], {};
    }

    /** `Worker.save`: the full name is recomputed from the names and the row
        is written; the saved record is returned. */
    method SaveWorker(id: WorkerId, w: Worker) returns (saved: Worker)
      requires Valid()
      modifies this`workers
      ensures Valid()
      ensures saved == w.(fullName := FullName(w.lastName, w.firstName))
      ensures workers == old(workers)[id := saved]
    {
      saved := w.(fullName := FullName(w.lastName, w.firstName));
      workers := workers[id := saved];
    }

    /** `Task.save`, for a new task or an update of task `id`: `full_clean`
        runs first and the row is written only when it finds nothing. */
    method SaveTask(id: TaskId, t: Task, now: DateTime) returns (errors: seq<ValidationError>)
      requires Valid()
      requires t.project.Some? ==> t.project.value in projects
      modifies this`tasks
      ensures Valid()
      ensures errors == TaskErrors(id, t, old(tasks), projects, now)
      ensures tasks == if errors == [] then old(tasks)[id := t] else old(tasks)
    {
      errors := TaskErrors(id, t, tasks, projects, now);
      if errors == [] {
        SaveKeepsUniqueNames(id, t, tasks);
        tasks := tasks[id := t];
      }
    }

    /** `Project.save`, for a new project or an update of project `id`. */
    method SaveProject(id: ProjectId, p: Project, today: Date) returns (error: Option<ValidationError>)
      requires Valid()
      requires p.leader.Some? ==> p.leader.value in workers
      requires p.team.Some? ==> p.team.value in teams
      modifies this`projects
      ensures Valid()
      ensures error == CleanProject(id, p, tasks, today)
      ensures projects == if error.None? then old(projects)[id := p] else old(projects)
    {
      error := CleanProject(id, p, tasks, today);
      if error.None? {
        StoreProjectKeepsResolve(id, p, projects, tasks, teams, workers);
        projects := projects[id := p];
      }
    }

    /** `toggle_completed`, as `Toggle` specifies it. */
    method ToggleCompleted(id: TaskId, now: DateTime) returns (r: TaskToggle)
      requires Valid()
      modifies this`tasks
      ensures Valid()
      ensures (r, tasks) == Toggle(id, old(tasks), projects, now)
    {
      if id !in tasks {
        return TaskNotFound;
      }
      var t := tasks[id];
      var flipped := t.(isCompleted := !t.isCompleted);
      TaskErrorsIgnoreCompletion(id, t, !t.isCompleted, tasks, projects, now);
      var errors := SaveTask(id, flipped, now);
      if errors == [] {
        r := Toggled(flipped.isCompleted);
      } else {
        r := ToggleRejected(errors);
      }
    }

    /** `task_take`: the requesting worker joins the task's assignees; when
        they already are one, nothing changes. */
    method TaskTake(id: TaskId, me: WorkerId) returns (found: bool)
      requires Valid()
      modifies this`assignees
      ensures Valid()
      ensures found == (id in tasks && me in workers)
      ensures assignees == if found then old(assignees) + {(id, me)} else old(assignees)
      ensures found ==> (id, me) in assignees
      ensures (id, me) in old(assignees) ==> assignees == old(assignees)
      ensures forall a :: a != (id, me) ==> (a in assignees <==> a in old(assignees))
    {
      found := id in tasks && me in workers;
      if !found || (id, me) in assignees {
        return;
      }
      assignees := assignees + {(id, me)};
    }

    /** `task_remove_from_me`: the requesting worker leaves the task's
        assignees; when they are not one, nothing changes. */
    method TaskRemoveFromMe(id: TaskId, me: WorkerId) returns (found: bool)
      requires Valid()
      modifies this`assignees
      ensures Valid()
      ensures found == (id in tasks && me in workers)
      ensures assignees == if found then old(assignees) - {(id, me)} else old(assignees)
      ensures found ==> (id, me) !in assignees
      ensures (id, me) !in old(assignees) ==> assignees == old(assignees)
      ensures forall a :: a != (id, me) ==> (a in assignees <==> a in old(assignees))
    {
      found := id in tasks && me in workers;
      if found && (id, me) in assignees {
        DropAssigneeKeepsConsistent(workers, teams, teamMembers, projects, tasks, assignees, (id, me));
        assignees := assignees - {(id, me)};
      } else if found {
        assert assignees - {(id, me)} == assignees;
      }
    }

    /** `project_toggle_completed`: a completed project is reopened and saved;
        an open one is marked completed and saved, and a refusal of that save
        is caught. Either way a refused save leaves the stored project as it
        was. */
    method ProjectToggleCompleted(id: ProjectId, today: Date) returns (r: ProjectToggle)
      requires Valid()
      modifies this`projects
      ensures Valid()
      ensures id !in old(projects) ==> r == ProjectNotFound && projects == old(projects)
      ensures id in old(projects) ==>
                var p := old(projects)[id];
                var p' := p.(isCompleted := !p.isCompleted);
                var error := CleanProject(id, p', tasks, today);
                if error.None? then
                  projects == old(projects)[id := p'] && r == (if p.isCompleted then Reopened else Completed)
                else
                  projects == old(projects)
                  && r == (if p.isCompleted then ReopenFailed(error.value) else CompletionRejected(error.value))
      ensures id in old(projects) && !old(projects)[id].isCompleted && HasIncompleteTasks(id, tasks)
              ==> r.CompletionRejected? && !projects[id].isCompleted
      ensures id in old(projects) && old(projects)[id].isCompleted
              ==> (r.ReopenFailed? <==> old(projects)[id].deadline < today)
    {
      if id !in projects {
        return ProjectNotFound;
      }
      var p := projects[id];
      ReopenOnlyChecksDeadline(id, p, tasks, today);
      if p.isCompleted {
        var error := SaveProject(id, p.(isCompleted := false), today);
        r := if error.None? then Reopened else ReopenFailed(error.value);
      } else {
        var error := SaveProject(id, p.(isCompleted := true), today);
        r := if error.None? then Completed else CompletionRejected(error.value);
      }
    }
  }
}
