/** Who may be assigned to a task: the branch at the top of `task_assign`
    (tasks/views.py), which builds the worker queryset handed to the
    assignment form. Each branch filters the Worker table, so the result only
    ever holds existing workers. */
module Eligibility {
  import opened Time
  import opened Entities

  /** Which of a project's team and leader are set, matched in the order the
      view tests them. */
  datatype Staffing =
    | TeamAndLeader(team: TeamId, leader: WorkerId)
    | LeaderOnly(leader: WorkerId)
    | TeamOnly(team: TeamId)
    | Unstaffed

  function StaffingOf(p: Project): (s: Staffing)
    ensures s.TeamAndLeader? <==> p.team.Some? && p.leader.Some?
    ensures s.Unstaffed? <==> p.team.None? && p.leader.None?
    ensures (s.TeamAndLeader? || s.TeamOnly?) ==> p.team == Some(s.team)
    ensures (s.TeamAndLeader? || s.LeaderOnly?) ==> p.leader == Some(s.leader)
  {
    if p.team.Some? && p.leader.Some? then TeamAndLeader(p.team.value, p.leader.value)
    else if p.leader.Some? then LeaderOnly(p.leader.value)
    else if p.team.Some? then TeamOnly(p.team.value)
    else Unstaffed
  }

  datatype EligibilityError =
    | TaskNotFound     // `get_object_or_404` fails
    | ProjectNotFound  // the task's project row is missing
    | TeamNotFound     // the project's team row is missing
    | NoTeamOrLeader   // the view never binds `assignees_qs`

  datatype Eligibility = Eligible(workers: set<WorkerId>) | Failed(error: EligibilityError)

  /** `Worker.objects.filter(Q(teams=team))`. */
  function TeamMembers(team: TeamId, members: set<(TeamId, WorkerId)>, workers: set<WorkerId>): set<WorkerId>
  {
    set w | w in workers && (team, w) in members
  }

  /** The workers offered for assignment to task `id`: every worker when the
      task has no project; otherwise the project's team members together with
      the project leader, whichever of them are set. When the project has
      neither, the view fails (the queryset variable is never bound). A
      dangling project or team id fails too, since the view dereferences
      `task.project` and `task.project.team`. */
  function EligibleWorkers(id: TaskId, tasks: map<TaskId, Task>, projects: map<ProjectId, Project>,
                           teams: set<TeamId>, members: set<(TeamId, WorkerId)>, workers: set<WorkerId>): (r: Eligibility)
    ensures r.Eligible? ==> r.workers <= workers
    ensures r == Failed(TaskNotFound) <==> id !in tasks
  {
    if id !in tasks then Failed(TaskNotFound)
    else match tasks[id].project
      case None => Eligible(workers)
      case Some(pid) =>
        if pid !in projects then Failed(ProjectNotFound)
        else match StaffingOf(projects[pid])
          case TeamAndLeader(team, leader) =>
            if team !in teams then Failed(TeamNotFound)
            else Eligible(set w | w in workers && ((team, w) in members || w == leader))
          case LeaderOnly(leader) => Eligible(set w | w in workers && w == leader)
          case TeamOnly(team) =>
            if team !in teams then Failed(TeamNotFound)
            else Eligible(TeamMembers(team, members, workers))
          case Unstaffed => Failed(NoTeamOrLeader)
  }

  /** A task outside any project may go to any worker. */
  lemma NoProjectAllWorkers(id: TaskId, tasks: map<TaskId, Task>, projects: map<ProjectId, Project>,
                            teams: set<TeamId>, members: set<(TeamId, WorkerId)>, workers: set<WorkerId>)
    requires id in tasks && tasks[id].project.None?
    ensures EligibleWorkers(id, tasks, projects, teams, members, workers) == Eligible(workers)
  {
  }

  /** With a team and a leader, a worker is eligible exactly when they are a
      member of the team or are the project's leader. The team's own leader
      gets no place of their own. */
  lemma TeamAndLeaderMembership(id: TaskId, tasks: map<TaskId, Task>, projects: map<ProjectId, Project>,
                                teams: set<TeamId>, members: set<(TeamId, WorkerId)>, workers: set<WorkerId>,
                                pid: ProjectId, w: WorkerId)
    requires id in tasks && tasks[id].project == Some(pid) && pid in projects
    requires projects[pid].team.Some? && projects[pid].leader.Some? && projects[pid].team.value in teams
    requires w in workers
    ensures var r := EligibleWorkers(id, tasks, projects, teams, members, workers);
            r.Eligible?
            && (w in r.workers <==> (projects[pid].team.value, w) in members || w == projects[pid].leader.value)
  {
  }

  /** With a team and a leader, the eligible set is the union of the team's
      members and the leader; a leader who is also a member appears once. */
  lemma TeamAndLeaderUnion(id: TaskId, tasks: map<TaskId, Task>, projects: map<ProjectId, Project>,
                           teams: set<TeamId>, members: set<(TeamId, WorkerId)>, workers: set<WorkerId>, pid: ProjectId)
    requires id in tasks && tasks[id].project == Some(pid) && pid in projects
    requires projects[pid].team.Some? && projects[pid].leader.Some? && projects[pid].team.value in teams
    requires projects[pid].leader.value in workers
    ensures EligibleWorkers(id, tasks, projects, teams, members, workers)
            == Eligible(TeamMembers(projects[pid].team.value, members, workers) + {projects[pid].leader.value})
  {
  }

  /** A project with a leader and no team offers exactly its leader. */
  lemma LeaderOnlyExactlyLeader(id: TaskId, tasks: map<TaskId, Task>, projects: map<ProjectId, Project>,
                                teams: set<TeamId>, members: set<(TeamId, WorkerId)>, workers: set<WorkerId>, pid: ProjectId)
    requires id in tasks && tasks[id].project == Some(pid) && pid in projects
    requires projects[pid].team.None? && projects[pid].leader.Some?
    requires projects[pid].leader.value in workers
    ensures EligibleWorkers(id, tasks, projects, teams, members, workers) == Eligible({projects[pid].leader.value})
  {
  }

  /** A project with a team and no leader offers exactly the team's members. */
  lemma TeamOnlyExactlyMembers(id: TaskId, tasks: map<TaskId, Task>, projects: map<ProjectId, Project>,
                               teams: set<TeamId>, members: set<(TeamId, WorkerId)>, workers: set<WorkerId>, pid: ProjectId)
    requires id in tasks && tasks[id].project == Some(pid) && pid in projects
    requires projects[pid].team.Some? && projects[pid].leader.None? && projects[pid].team.value in teams
    requires forall m :: m in members ==> m.1 in workers
    ensures EligibleWorkers(id, tasks, projects, teams, members, workers)
            == Eligible(set m | m in members && m.0 == projects[pid].team.value :: m.1)
  {
  }

  /** The view fails on a dangling project id exactly when the task exists
      and names a project that has no row. */
  lemma ProjectNotFoundIff(id: TaskId, tasks: map<TaskId, Task>, projects: map<ProjectId, Project>,
                           teams: set<TeamId>, members: set<(TeamId, WorkerId)>, workers: set<WorkerId>)
    ensures EligibleWorkers(id, tasks, projects, teams, members, workers) == Failed(ProjectNotFound)
            <==> id in tasks && tasks[id].project.Some? && tasks[id].project.value !in projects
  {
  }

  /** The view fails on a dangling team id exactly when the task's project
      exists, has a team set, and that team has no row; a missing leader row
      never fails, it only leaves the leader out of the filter. */
  lemma TeamNotFoundIff(id: TaskId, tasks: map<TaskId, Task>, projects: map<ProjectId, Project>,
                        teams: set<TeamId>, members: set<(TeamId, WorkerId)>, workers: set<WorkerId>)
    ensures EligibleWorkers(id, tasks, projects, teams, members, workers) == Failed(TeamNotFound)
            <==> id in tasks && tasks[id].project.Some? && tasks[id].project.value in projects
                 && projects[tasks[id].project.value].team.Some?
                 && projects[tasks[id].project.value].team.value !in teams
  {
  }

  /** A project with neither team nor leader has no defined eligibility set. */
  lemma UnstaffedFails(id: TaskId, tasks: map<TaskId, Task>, projects: map<ProjectId, Project>,
                       teams: set<TeamId>, members: set<(TeamId, WorkerId)>, workers: set<WorkerId>, pid: ProjectId)
    requires id in tasks && tasks[id].project == Some(pid) && pid in projects
    requires projects[pid].team.None? && projects[pid].leader.None?
    ensures EligibleWorkers(id, tasks, projects, teams, members, workers) == Failed(NoTeamOrLeader)
  {
  }

  /** Team 1 = {A, B} with leader C gives {A, B, C}; leader C alone gives
      {C}. Workers 1, 2 and 3 stand for A, B and C. */
  lemma ThreeWorkerScenario()
    ensures var workers: set<WorkerId> := {1, 2, 3};
            var members: set<(TeamId, WorkerId)> := {(1, 1), (1, 2)};
            var task := Task("Write report", "", DateTime(10, 0), false, Medium, 1, Some(1));
            var withTeam := Project("P", "", Some(3), Some(1), 20, false);
            var alone := Project("P", "", Some(3), None, 20, false);
            EligibleWorkers(1, map[1 := task], map[1 := withTeam], {1}, members, workers) == Eligible({1, 2, 3})
            && EligibleWorkers(1, map[1 := task], map[1 := alone], {1}, members, workers) == Eligible({3})
  {
    var workers: set<WorkerId> := {1, 2, 3};
    var members: set<(TeamId, WorkerId)> := {(1, 1), (1, 2)};
    var r := set w | w in workers && ((1, w) in members || w == 3);
    assert 1 in r && 2 in r && 3 in r;
    assert r == {1, 2, 3};
  }
}
