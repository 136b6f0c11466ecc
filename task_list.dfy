/** The task list of `TaskListView.get_queryset` (tasks/views.py): the
    "my tasks" filter, the status filter and the optional ordering by
    deadline, applied to the tasks in their default order. The default order
    is the one `Task.Meta.ordering` gives, ascending by deadline. */
module TaskList {
  import opened Time
  import opened Entities

  /** A stored task together with its key. */
  datatype Row = Row(id: TaskId, task: Task)

  /** One `filter(...)` of the queryset. */
  datatype Criterion =
    | CompletedIs(completed: bool)                                      // is_completed=...
    | AssignedTo(user: WorkerId, assignees: set<(TaskId, WorkerId)>)    // assignees__in=[user]

  predicate Meets(x: Row, c: Criterion)
  {
    match c
    case CompletedIs(b) => x.task.isCompleted == b
    case AssignedTo(u, pairs) => (x.id, u) in pairs
  }

  /** The rows that meet `c`, in their original order. */
  function Filter(s: seq<Row>, c: Criterion): seq<Row>
  {
    if s == [] then [] else (if Meets(s[0], c) then [s[0]] else []) + Filter(s[1..], c)
  }

  /** Filtering keeps each row that meets the criterion as often as it occurs,
      and drops every other. */
  lemma {:induction false} FilterCount(s: seq<Row>, c: Criterion, x: Row)
    ensures multiset(Filter(s, c))[x] == if Meets(x, c) then multiset(s)[x] else 0
  {
    if s != [] {
      FilterCount(s[1..], c, x);
      assert s == [s[0]] + s[1..];
    }
  }

  /** A row in the filtered list is a row of the input that meets the
      criterion. */
  lemma FilterMember(s: seq<Row>, c: Criterion, x: Row)
    requires x in Filter(s, c)
    ensures x in s && Meets(x, c)
  {
    FilterCount(s, c, x);
    assert multiset(Filter(s, c))[x] > 0;
  }

  /** `a` is `b` with some rows left out and the rest kept in order. */
  predicate IsSubsequence(a: seq<Row>, b: seq<Row>)
    decreases |b|
  {
    a == [] || (b != [] && ((a[0] == b[0] && IsSubsequence(a[1..], b[1..])) || IsSubsequence(a, b[1..])))
  }

  lemma {:induction false} FilterIsSubsequence(s: seq<Row>, c: Criterion)
    ensures IsSubsequence(Filter(s, c), s)
  {
    if s != [] {
      var tail := Filter(s[1..], c);
      FilterIsSubsequence(s[1..], c);
      if Meets(s[0], c) {
        var r := [s[0]] + tail;
        assert Filter(s, c) == r;
        assert r[0] == s[0] && r[1..] == tail;
      } else {
        assert Filter(s, c) == tail;
      }
    }
  }

  /** `a` comes no later than `b` in the requested direction. */
  predicate Precedes(a: Row, b: Row, descending: bool)
  {
    if descending then NotAfter(b.task.deadline, a.task.deadline)
    else NotAfter(a.task.deadline, b.task.deadline)
  }

  predicate SortedBy(s: seq<Row>, descending: bool)
  {
    forall i, j :: 0 <= i < j < |s| ==> Precedes(s[i], s[j], descending)
  }

  /** Filtering a sorted list leaves it sorted. */
  lemma {:induction false} FilterKeepsSorted(s: seq<Row>, c: Criterion, descending: bool)
    requires SortedBy(s, descending)
    ensures SortedBy(Filter(s, c), descending)
  {
    if s != [] {
      var tail := Filter(s[1..], c);
      assert SortedBy(s[1..], descending);
      FilterKeepsSorted(s[1..], c, descending);
      if Meets(s[0], c) {
        forall j | 0 <= j < |tail| ensures Precedes(s[0], tail[j], descending) {
          FilterMember(s[1..], c, tail[j]);
          var k :| 0 <= k < |s[1..]| && s[1..][k] == tail[j];
          assert s[k + 1] == tail[j];
        }
        var r := [s[0]] + tail;
        assert Filter(s, c) == r;
        forall i, j | 0 <= i < j < |r| ensures Precedes(r[i], r[j], descending) {
          if i > 0 {
            assert r[i] == tail[i - 1] && r[j] == tail[j - 1];
          }
        }
      } else {
        assert Filter(s, c) == tail;
      }
    }
  }

  /** Puts `x` before the first row it precedes. */
  function Insert(x: Row, s: seq<Row>, descending: bool): seq<Row>
  {
    if s == [] then [x]
    else if Precedes(x, s[0], descending) then [x] + s
    else [s[0]] + Insert(x, s[1..], descending)
  }

  /** Inserting adds exactly `x`. */
  lemma {:induction false} InsertPermutes(x: Row, s: seq<Row>, descending: bool)
    ensures multiset(Insert(x, s, descending)) == multiset(s) + multiset{x}
  {
    if s != [] && !Precedes(x, s[0], descending) {
      InsertPermutes(x, s[1..], descending);
      assert Insert(x, s, descending) == [s[0]] + Insert(x, s[1..], descending);
      assert s == [s[0]] + s[1..];
    }
  }

  /** Every row of the result is `x` or a row of `s`. */
  lemma InsertMember(x: Row, s: seq<Row>, descending: bool, y: Row)
    requires y in Insert(x, s, descending)
    ensures y == x || y in s
  {
    InsertPermutes(x, s, descending);
    assert y in multiset(Insert(x, s, descending));
  }

  /** A row that precedes every row of a sorted list can go in front of it. */
  lemma ConsSorted(h: Row, t: seq<Row>, descending: bool)
    requires SortedBy(t, descending)
    requires forall j :: 0 <= j < |t| ==> Precedes(h, t[j], descending)
    ensures SortedBy([h] + t, descending)
  {
    var r := [h] + t;
    forall i, j | 0 <= i < j < |r| ensures Precedes(r[i], r[j], descending) {
      assert r[j] == t[j - 1];
      if i > 0 {
        assert r[i] == t[i - 1];
      }
    }
  }

  /** Inserting into a sorted list keeps it sorted and adds exactly `x`. */
  lemma {:induction false} InsertSorted(x: Row, s: seq<Row>, descending: bool)
    requires SortedBy(s, descending)
    ensures multiset(Insert(x, s, descending)) == multiset(s) + multiset{x}
    ensures SortedBy(Insert(x, s, descending), descending)
  {
    InsertPermutes(x, s, descending);
    if s == [] {
      assert Insert(x, s, descending) == [x];
    } else if Precedes(x, s[0], descending) {
      forall j | 0 <= j < |s| ensures Precedes(x, s[j], descending) {
        if j > 0 {
          assert Precedes(s[0], s[j], descending);
        }
      }
      ConsSorted(x, s, descending);
    } else {
      var tail := Insert(x, s[1..], descending);
      assert SortedBy(s[1..], descending);
      InsertSorted(x, s[1..], descending);
      forall j | 0 <= j < |tail| ensures Precedes(s[0], tail[j], descending) {
        InsertMember(x, s[1..], descending, tail[j]);
        if tail[j] != x {
          var k :| 0 <= k < |s[1..]| && s[1..][k] == tail[j];
          assert s[k + 1] == tail[j];
        }
      }
      ConsSorted(s[0], tail, descending);
    }
  }

  /** `order_by("deadline")` (ascending) or `order_by("-deadline")`
      (descending), as an insertion sort. */
  function SortByDeadline(s: seq<Row>, descending: bool): seq<Row>
  {
    if s == [] then [] else Insert(s[0], SortByDeadline(s[1..], descending), descending)
  }

  lemma {:induction false} SortByDeadlineSorted(s: seq<Row>, descending: bool)
    ensures multiset(SortByDeadline(s, descending)) == multiset(s)
    ensures SortedBy(SortByDeadline(s, descending), descending)
  {
    if s != [] {
      SortByDeadlineSorted(s[1..], descending);
      InsertSorted(s[0], SortByDeadline(s[1..], descending), descending);
      assert s == [s[0]] + s[1..];
    }
  }

  /** `my=1` keeps the tasks the user is assigned to. */
  function ByAssignee(rows: seq<Row>, my: Option<string>, user: WorkerId,
                      assignees: set<(TaskId, WorkerId)>): seq<Row>
  {
    if my == Some("1") then Filter(rows, AssignedTo(user, assignees)) else rows
  }

  /** `status=completed` and `status=uncompleted` keep the matching tasks; any
      other status, or none, keeps all. */
  function ByStatus(rows: seq<Row>, status: Option<string>): seq<Row>
  {
    if status == Some("completed") then Filter(rows, CompletedIs(true))
    else if status == Some("uncompleted") then Filter(rows, CompletedIs(false))
    else rows
  }

  /** Only the two allowed orderings are applied; anything else leaves the
      order as it is. */
  function ByOrdering(rows: seq<Row>, ordering: Option<string>): seq<Row>
  {
    if ordering == Some("deadline") then SortByDeadline(rows, false)
    else if ordering == Some("-deadline") then SortByDeadline(rows, true)
    else rows
  }

  /** `get_queryset` without the name search; `rows` are all tasks in their
      default order and `user` is the requesting worker. */
  function ListTasks(rows: seq<Row>, my: Option<string>, status: Option<string>, ordering: Option<string>,
                     user: WorkerId, assignees: set<(TaskId, WorkerId)>): seq<Row>
  {
    ByOrdering(ByStatus(ByAssignee(rows, my, user, assignees), status), ordering)
  }

  /** The conditions a task must meet to be listed. */
  predicate Shown(x: Row, my: Option<string>, status: Option<string>, user: WorkerId,
                  assignees: set<(TaskId, WorkerId)>)
  {
    && (my == Some("1") ==> (x.id, user) in assignees)
    && (status == Some("completed") ==> x.task.isCompleted)
    && (status == Some("uncompleted") ==> !x.task.isCompleted)
  }

  lemma ByAssigneeCount(rows: seq<Row>, my: Option<string>, user: WorkerId,
                        assignees: set<(TaskId, WorkerId)>, x: Row)
    ensures multiset(ByAssignee(rows, my, user, assignees))[x]
            == if my == Some("1") && (x.id, user) !in assignees then 0 else multiset(rows)[x]
  {
    FilterCount(rows, AssignedTo(user, assignees), x);
  }

  lemma ByStatusCount(rows: seq<Row>, status: Option<string>, x: Row)
    ensures multiset(ByStatus(rows, status))[x]
            == if (status == Some("completed") && !x.task.isCompleted)
                  || (status == Some("uncompleted") && x.task.isCompleted) then 0
               else multiset(rows)[x]
  {
    FilterCount(rows, CompletedIs(true), x);
    FilterCount(rows, CompletedIs(false), x);
  }

  /** Ordering rearranges the list: an allowed ordering sorts it, any other
      leaves it as it is. */
  lemma ByOrderingSpec(rows: seq<Row>, ordering: Option<string>)
    ensures multiset(ByOrdering(rows, ordering)) == multiset(rows)
    ensures ordering == Some("deadline") ==> SortedBy(ByOrdering(rows, ordering), false)
    ensures ordering == Some("-deadline") ==> SortedBy(ByOrdering(rows, ordering), true)
    ensures ordering != Some("deadline") && ordering != Some("-deadline") ==> ByOrdering(rows, ordering) == rows
  {
    SortByDeadlineSorted(rows, false);
    SortByDeadlineSorted(rows, true);
  }

  /** The list holds every task that meets the filters, as often as it is
      stored, and no other. */
  lemma ListTasksContents(rows: seq<Row>, my: Option<string>, status: Option<string>, ordering: Option<string>,
                          user: WorkerId, assignees: set<(TaskId, WorkerId)>)
    ensures var r := ListTasks(rows, my, status, ordering, user, assignees);
            forall x :: multiset(r)[x] == if Shown(x, my, status, user, assignees) then multiset(rows)[x] else 0
  {
    var mine := ByAssignee(rows, my, user, assignees);
    var filtered := ByStatus(mine, status);
    ByOrderingSpec(filtered, ordering);
    forall x ensures multiset(ByOrdering(filtered, ordering))[x]
                     == if Shown(x, my, status, user, assignees) then multiset(rows)[x] else 0
    {
      ByAssigneeCount(rows, my, user, assignees, x);
      ByStatusCount(mine, status, x);
    }
  }

  /** An allowed ordering sorts the list by deadline in that direction; any
      other keeps the default order of the rows the filters leave. */
  lemma ListTasksOrder(rows: seq<Row>, my: Option<string>, status: Option<string>, ordering: Option<string>,
                       user: WorkerId, assignees: set<(TaskId, WorkerId)>)
    ensures var r := ListTasks(rows, my, status, ordering, user, assignees);
            && (ordering == Some("deadline") ==> SortedBy(r, false))
            && (ordering == Some("-deadline") ==> SortedBy(r, true))
            && (ordering != Some("deadline") && ordering != Some("-deadline") ==> IsSubsequence(r, rows))
  {
    var mine := ByAssignee(rows, my, user, assignees);
    var filtered := ByStatus(mine, status);
    ByOrderingSpec(filtered, ordering);
    if ordering != Some("deadline") && ordering != Some("-deadline") {
      SubsequenceReflexive(rows);
      SubsequenceReflexive(mine);
      FilterIsSubsequence(rows, AssignedTo(user, assignees));
      FilterIsSubsequence(mine, CompletedIs(true));
      FilterIsSubsequence(mine, CompletedIs(false));
      assert IsSubsequence(mine, rows);
      assert IsSubsequence(filtered, mine);
      SubsequenceTransitive(filtered, mine, rows);
    }
  }

  lemma {:induction false} SubsequenceReflexive(s: seq<Row>)
    ensures IsSubsequence(s, s)
  {
    if s != [] {
      SubsequenceReflexive(s[1..]);
    }
  }

  lemma {:induction false} SubsequenceTransitive(a: seq<Row>, b: seq<Row>, c: seq<Row>)
    requires IsSubsequence(a, b) && IsSubsequence(b, c)
    ensures IsSubsequence(a, c)
    decreases |c|
  {
    if a != [] {
      assert b != [] && c != [];
      if b[0] == c[0] && IsSubsequence(b[1..], c[1..]) {
        if a[0] == b[0] && IsSubsequence(a[1..], b[1..]) {
          SubsequenceTransitive(a[1..], b[1..], c[1..]);
        } else {
          SubsequenceTransitive(a, b[1..], c[1..]);
        }
      } else {
        SubsequenceTransitive(a, b, c[1..]);
      }
    }
  }

  /** Because the default order is ascending by deadline, the list is sorted
      ascending unless `-deadline` is asked for. */
  lemma DefaultOrderAscending(rows: seq<Row>, my: Option<string>, status: Option<string>, ordering: Option<string>,
                              user: WorkerId, assignees: set<(TaskId, WorkerId)>)
    requires SortedBy(rows, false)
    requires ordering != Some("-deadline")
    ensures SortedBy(ListTasks(rows, my, status, ordering, user, assignees), false)
  {
    var mine := ByAssignee(rows, my, user, assignees);
    FilterKeepsSorted(rows, AssignedTo(user, assignees), false);
    FilterKeepsSorted(mine, CompletedIs(true), false);
    FilterKeepsSorted(mine, CompletedIs(false), false);
    SortByDeadlineSorted(ByStatus(mine, status), false);
  }
}
