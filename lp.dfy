/**
 * The per-task record construction of `list_tasks` in launchpad2trello/lp.py.
 * Launchpad itself (login, the project lookup, `searchTasks`) is an input: the
 * sequence of bug tasks `searchTasks()` returns, in its order.
 */
module Lp {
  import opened Wrappers

  datatype Bug = Bug(id: nat, title: string)

  /** A Launchpad person; only its `name` is read. */
  datatype Person = Person(name: string)

  /** A Launchpad milestone; only its `name` is read. */
  datatype Milestone = Milestone(name: string)

  /** A bug task as launchpadlib exposes it; an absent reference is None. */
  datatype BugTask = BugTask(
    bug: Bug,
    webLink: string,
    status: string,
    importance: string,
    owner: Option<Person>,
    assignee: Option<Person>,
    milestone: Option<Milestone>)

  /** The flat dict `list_tasks` yields per task. */
  datatype TaskRecord = TaskRecord(
    id: nat,
    title: string,
    url: string,
    status: string,
    owner: Option<string>,
    assignee: Option<string>,
    importance: string,
    milestone: Option<string>)

  /** `x.name if x else None` for a person reference. */
  function PersonName(p: Option<Person>): (n: Option<string>)
    ensures n.None? <==> p.None?
    ensures p.Some? ==> n.value == p.value.name
  {
    match p
    case Some(person) => Some(person.name)
    case None => None
  }

  /** `x.name if x else None` for a milestone reference. */
  function MilestoneName(m: Option<Milestone>): (n: Option<string>)
    ensures n.None? <==> m.None?
    ensures m.Some? ==> n.value == m.value.name
  {
    match m
    case Some(milestone) => Some(milestone.name)
    case None => None
  }

  /** The dict yielded for one task. */
  function Normalize(task: BugTask): (r: TaskRecord)
    ensures r.id == task.bug.id && r.title == task.bug.title && r.url == task.webLink
    ensures r.status == task.status && r.importance == task.importance
    ensures r.owner.None? <==> task.owner.None?
    ensures r.assignee.None? <==> task.assignee.None?
    ensures r.milestone.None? <==> task.milestone.None?
    ensures task.owner.Some? ==> r.owner.value == task.owner.value.name
    ensures task.assignee.Some? ==> r.assignee.value == task.assignee.value.name
    ensures task.milestone.Some? ==> r.milestone.value == task.milestone.value.name
  {
    TaskRecord(
      id := task.bug.id,
      title := task.bug.title,
      url := task.webLink,
      status := task.status,
      owner := PersonName(task.owner),
      assignee := PersonName(task.assignee),
      importance := task.importance,
      milestone := MilestoneName(task.milestone))
  }

  /** The generator `list_tasks`, drained: one record per task, in `searchTasks` order. */
  function ListTasks(tasks: seq<BugTask>): (records: seq<TaskRecord>)
    ensures |records| == |tasks|
    ensures forall i :: 0 <= i < |tasks| ==> records[i] == Normalize(tasks[i])
  {
    if tasks == [] then [] else [Normalize(tasks[0])] + ListTasks(tasks[1..])
  }
}
