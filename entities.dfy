/** Points in time as the application compares them.

    A deadline of a Task is a date-time, a deadline of a Project is a calendar
    date; `now` and `today` come from the caller instead of a clock. A date-time
    is its calendar date (in the site's time zone) and an offset into that day,
    ordered lexicographically, so `DateTime.date` is Python's `datetime.date()`. */
module Time {

  /** A calendar date as a day number. */
  type Date = int

  /** An instant: the day it falls on and how far into that day it lies. */
  datatype DateTime = DateTime(date: Date, timeOfDay: nat)

  /** `a < b` on date-times. */
  predicate Before(a: DateTime, b: DateTime)
  {
    a.date < b.date || (a.date == b.date && a.timeOfDay < b.timeOfDay)
  }

  /** `a <= b` on date-times. */
  predicate NotAfter(a: DateTime, b: DateTime)
  {
    !Before(b, a)
  }
}

/** The records of tasks/models.py: Worker, Team, Project and Task, with the
    foreign keys as (optional) ids and the many-to-many relations kept apart, as
    sets of pairs, by the store. */
module Entities {
  import opened Time

  datatype Option<+T> = None | Some(value: T)

  /** Primary keys are assigned by the database counting from 1, so a key is
      never 0 and a present key is always truthy in Python. */
  type Id = n: nat | n > 0 witness 1

  type WorkerId = Id
  type PositionId = Id
  type TeamId = Id
  type ProjectId = Id
  type TaskId = Id
  type TaskTypeId = Id

  /** Worker (a Django user) with the fields the core reads; `fullName` is the
      derived column `full_name`. */
  datatype Worker = Worker(
    username: string,
    firstName: string,
    lastName: string,
    fullName: string,
    position: Option<PositionId>,
    biography: string)

  /** Team; its members are the store's `teamMembers` pairs. */
  datatype Team = Team(name: string, leader: Option<WorkerId>)

  /** Project; its tasks are the stored tasks whose `project` is its id. */
  datatype Project = Project(
    name: string,
    description: string,
    leader: Option<WorkerId>,
    team: Option<TeamId>,
    deadline: Date,
    isCompleted: bool)

  datatype Priority = Urgent | High | Medium | Low

  /** Task; its assignees are the store's `assignees` pairs. */
  datatype Task = Task(
    name: string,
    description: string,
    deadline: DateTime,
    isCompleted: bool,
    priority: Priority,
    taskType: TaskTypeId,
    project: Option<ProjectId>)
}
