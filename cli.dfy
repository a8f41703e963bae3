/**
 * The per-task loop of `main` in launchpad2trello/cli.py: the status to list rule
 * table, the card name and description, and one `create_card` per task.
 * Argument parsing is not modelled; the bootstrap is Trello.CreateListsAsNecessary
 * and the tasks come from Lp.ListTasks.
 */
module Cli {
  import opened Wrappers
  import opened TaskRe
  import opened Trello
  import Lp

  /** The if/elif chain of lines 34-41: the list a task with this status is filed in. */
  function ListFor(status: string): string
  {
    if status in ["Triaged", "Confirmed"] then "Approved"
    else if status in ["In Progress"] then "Doing"
    else if status in ["Fix Committed"] then "Done"
    else "Backlog"
  }

  /**
   * Exactly one branch of the chain applies, and the chosen name is one of the names
   * the bootstrap ensures.
   */
  lemma ListForRules(status: string)
    ensures ListFor(status) in RequiredLists
    ensures ListFor(status) == "Approved" <==> status == "Triaged" || status == "Confirmed"
    ensures ListFor(status) == "Doing" <==> status == "In Progress"
    ensures ListFor(status) == "Done" <==> status == "Fix Committed"
    ensures ListFor(status) == "Backlog" <==>
      status != "Triaged" && status != "Confirmed" && status != "In Progress" && status != "Fix Committed"
  {
  }

  // ---------------------------------------------------------------------------
  // `'%s' % id` for a non-negative integer: its decimal digits.

  function DigitChar(d: nat): (c: char)
    requires d < 10
    ensures IsDigit(c)
  {
    (48 + d) as char
  }

  function DigitValue(c: char): nat
    requires IsDigit(c)
  {
    c as int - 48
  }

  /** Python's `str(n)`: the decimal digits of `n`, without leading zeros. */
  function Decimal(n: nat): (s: string)
    ensures |s| > 0 && AllDigits(s)
    ensures |s| == 1 || s[0] != '0'
  {
    if n < 10 then [DigitChar(n)] else Decimal(n / 10) + [DigitChar(n % 10)]
  }

  /** Python's `int(s)` on a string of digits. */
  function DecimalValue(s: string): nat
    requires AllDigits(s)
  {
    if s == [] then 0 else 10 * DecimalValue(s[.. |s| - 1]) + DigitValue(s[|s| - 1])
  }

  /** `int(str(n)) == n`: the digits of an id give the id back. */
  lemma {:induction false} DecimalRoundTrip(n: nat)
    ensures DecimalValue(Decimal(n)) == n
  {
    if n >= 10 {
      DecimalRoundTrip(n / 10);
      var s := Decimal(n);
      assert s[.. |s| - 1] == Decimal(n / 10);
    }
  }

  // ---------------------------------------------------------------------------
  // Card text (lines 47-48)

  /** `'Bug %s: %s' % (task['id'], task['title'])`. */
  function CardName(id: nat, title: string): string
  {
    "Bug " + Decimal(id) + ": " + title
  }

  /** `'Bug #%s' % task['id']`. */
  function CardDescription(id: nat): string
  {
    "Bug #" + Decimal(id)
  }

  /**
   * Round trip with TASK_RE (launchpad2trello/trello.py:17): whatever the title, the
   * name of a created card yields `str(id)` as its task id, and that digit string
   * reads back as the id.
   */
  lemma CardNameRoundTrip(id: nat, title: string)
    ensures TaskId(CardName(id, title)) == Some(Decimal(id))
    ensures DecimalValue(Decimal(id)) == id
  {
    LeadingTaskLine(Decimal(id), title);
    assert CardName(id, title) == Prefix + Decimal(id) + Suffix + title;
    DecimalRoundTrip(id);
  }

  // ---------------------------------------------------------------------------
  // One create_card per task (lines 33-49)

  /** `lists_by_name[name]['id']`: KeyError for a missing name, TypeError for a bare id. */
  function ListIdFor(byName: map<string, ListEntry>, name: string): (r: Result<string, PyError>)
    ensures r == Failure(KeyError) <==> name !in byName
    ensures name in byName ==> r == ListIdOf(byName[name])
  {
    if name !in byName then Failure(KeyError) else ListIdOf(byName[name])
  }

  /** What one iteration of the loop sends for `task`, or the exception it raises. */
  function CardRequestFor(task: Lp.TaskRecord, byName: map<string, ListEntry>): Result<Request, PyError>
  {
    match ListIdFor(byName, ListFor(task.status))
    case Failure(e) => Failure(e)
    case Success(listId) => CreateCardRequest(listId, CardName(task.id, task.title), CardDescription(task.id), task.url)
  }

  /**
   * Once the four lists exist with an id, the list lookup of lines 34-41 cannot fail.
   * The iteration then sends the card `Bug <id>: <title>` with description
   * `Bug #<id>` to the list chosen by status, unless `create_card` rejects it. Name and
   * description are never empty, so it rejects only an empty list id, an empty url,
   * or a name or description longer than 16384 characters.
   */
  lemma CardRequestAfterBootstrap(task: Lp.TaskRecord, byName: map<string, ListEntry>)
    requires forall n :: n in RequiredLists ==> n in byName && ListIdOf(byName[n]).Success?
    ensures var r := CardRequestFor(task, byName); var listId := ListIdOf(byName[ListFor(task.status)]).value;
      && (r.Success? <==>
            listId != "" && |CardName(task.id, task.title)| <= MaxText && |CardDescription(task.id)| <= MaxText && task.url != "")
      && (r.Failure? ==> r.error == AssertionError)
      && (r.Success? ==> r.value == PostCard(listId, CardName(task.id, task.title), CardDescription(task.id), task.url))
  {
    ListForRules(task.status);
  }

  /**
   * The `for task in ...` loop of `main`: one `create_card` per task, in task order,
   * with no lookup of existing cards. The first exception stops the loop; the
   * requests sent before it stay sent.
   */
  method PostCards(tasks: seq<Lp.TaskRecord>, byName: map<string, ListEntry>, log: seq<Request>)
    returns (r: Result<(), PyError>, sent: seq<Request>)
    ensures |log| <= |sent| <= |log| + |tasks| && sent[.. |log|] == log
    ensures forall i :: |log| <= i < |sent| ==> CardRequestFor(tasks[i - |log|], byName) == Success(sent[i])
    ensures r.Success? <==> |sent| == |log| + |tasks|
    ensures r.Failure? ==> CardRequestFor(tasks[|sent| - |log|], byName) == Failure(r.error)
  {
    sent := log;
    var i := 0;
    while i < |tasks|
      invariant i <= |tasks| && |sent| == |log| + i && sent[.. |log|] == log
      invariant forall j :: |log| <= j < |sent| ==> CardRequestFor(tasks[j - |log|], byName) == Success(sent[j])
    {
      var task := tasks[i];
      var listId := ListIdFor(byName, ListFor(task.status));
      if listId.Failure? {
        return Failure(listId.error), sent;
      }
      var card := CreateCardRequest(listId.value, CardName(task.id, task.title), CardDescription(task.id), task.url);
      if card.Failure? {
        return Failure(card.error), sent;
      }
      sent := sent + [card.value];
      i := i + 1;
    }
    r := Success(());
  }

  /**
   * After the bootstrap, the card one iteration sends for a Launchpad task goes to the
   * list `lists_by_name[ListFor(status)]['id']`, is named after the task's bug, is
   * described as `Bug #<id>` and points to the task's web link.
   */
  lemma CardSentFor(task: Lp.BugTask, byName: map<string, ListEntry>, req: Request)
    requires forall n :: n in RequiredLists ==> n in byName && ListIdOf(byName[n]).Success?
    requires CardRequestFor(Lp.Normalize(task), byName) == Success(req)
    ensures req.PostCard?
    ensures ListIdFor(byName, ListFor(task.status)) == Success(req.listId)
    ensures req.name == CardName(task.bug.id, task.bug.title)
    ensures req.description == CardDescription(task.bug.id)
    ensures req.url == task.webLink
    ensures !CardRejected(task, byName)
  {
    CardRequestAfterBootstrap(Lp.Normalize(task), byName);
  }

  /**
   * The task's list lookup succeeds and `create_card` rejects its card (an empty list
   * id or url, or a name or description over 16384 characters).
   */
  ghost predicate CardRejected(task: Lp.BugTask, byName: map<string, ListEntry>)
  {
    var listId := ListIdFor(byName, ListFor(task.status));
    && listId.Success?
    && !CreateCardRequest(listId.value, CardName(task.bug.id, task.bug.title), CardDescription(task.bug.id), task.webLink).Success?
  }

  /**
   * The loop stopped at the task after the cards sent since `log`, because that
   * task's card is rejected.
   */
  ghost predicate StoppedAt(tasks: seq<Lp.BugTask>, byName: map<string, ListEntry>, log: seq<Request>, sent: seq<Request>)
  {
    && |log| <= |sent| < |log| + |tasks|
    && CardRejected(tasks[|sent| - |log|], byName)
  }

  /**
   * After the bootstrap, an iteration that raises does so with AssertionError, because
   * `create_card` rejects the task's card; the list lookup itself succeeded.
   */
  lemma CardRejectedFor(task: Lp.BugTask, byName: map<string, ListEntry>, e: PyError)
    requires forall n :: n in RequiredLists ==> n in byName && ListIdOf(byName[n]).Success?
    requires CardRequestFor(Lp.Normalize(task), byName) == Failure(e)
    ensures e == AssertionError
    ensures CardRejected(task, byName)
  {
    CardRequestAfterBootstrap(Lp.Normalize(task), byName);
  }

  /**
   * The requests after `log` are, in order, the cards of the first tasks: each in the
   * list its task's status selects, named after the task's bug, described as
   * `Bug #<id>`, pointing to the task's web link, and accepted by `create_card`.
   */
  ghost predicate CardsFollow(tasks: seq<Lp.BugTask>, byName: map<string, ListEntry>, log: seq<Request>, sent: seq<Request>)
    requires |log| <= |sent| <= |log| + |tasks|
  {
    forall i :: 0 <= i < |sent| - |log| ==>
      var req := sent[|log| + i];
      && req.PostCard?
      && ListIdFor(byName, ListFor(tasks[i].status)) == Success(req.listId)
      && req.name == CardName(tasks[i].bug.id, tasks[i].bug.title)
      && req.description == CardDescription(tasks[i].bug.id)
      && req.url == tasks[i].webLink
      && !CardRejected(tasks[i], byName)
  }

  /**
   * The requests the loop sent after the bootstrap, read back per Launchpad task as
   * `CardSentFor` states them; `records` are the dicts `list_tasks` yields for `tasks`.
   */
  lemma CardsSent(tasks: seq<Lp.BugTask>, records: seq<Lp.TaskRecord>, byName: map<string, ListEntry>,
                  before: seq<Request>, sent: seq<Request>)
    requires forall n :: n in RequiredLists ==> n in byName && ListIdOf(byName[n]).Success?
    requires |records| == |tasks| && forall i :: 0 <= i < |tasks| ==> records[i] == Lp.Normalize(tasks[i])
    requires |before| <= |sent| <= |before| + |tasks|
    requires forall i :: |before| <= i < |sent| ==> CardRequestFor(records[i - |before|], byName) == Success(sent[i])
    ensures CardsFollow(tasks, byName, before, sent)
  {
    forall i | 0 <= i < |sent| - |before| {
      CardSentFor(tasks[i], byName, sent[|before| + i]);
    }
  }

  /**
   * A loop that stopped after `k` cards stopped at the task whose card `create_card`
   * rejects, with AssertionError.
   */
  lemma LoopStop(tasks: seq<Lp.BugTask>, records: seq<Lp.TaskRecord>, byName: map<string, ListEntry>, k: nat, e: PyError)
    requires forall n :: n in RequiredLists ==> n in byName && ListIdOf(byName[n]).Success?
    requires |records| == |tasks| && forall i :: 0 <= i < |tasks| ==> records[i] == Lp.Normalize(tasks[i])
    requires k < |records| && CardRequestFor(records[k], byName) == Failure(e)
    ensures e == AssertionError
    ensures CardRejected(tasks[k], byName)
  {
    CardRejectedFor(tasks[k], byName, e);
  }

  /**
   * The loop of `main` over `lp.list_tasks()` once the four lists exist with an id:
   * after `log`, one `create_card` per Launchpad task, in task order, each in the list
   * its status selects. Every list lookup succeeds, so the loop stops early only at a
   * task whose card `create_card` rejects, with AssertionError.
   */
  method PostTaskCards(tasks: seq<Lp.BugTask>, byName: map<string, ListEntry>, log: seq<Request>)
    returns (r: Result<(), PyError>, sent: seq<Request>)
    requires forall n :: n in RequiredLists ==> n in byName && ListIdOf(byName[n]).Success?
    ensures |log| <= |sent| <= |log| + |tasks| && sent[.. |log|] == log
    ensures r.Success? <==> |sent| == |log| + |tasks|
    ensures CardsFollow(tasks, byName, log, sent)
    ensures r.Failure? ==> r.error == AssertionError && StoppedAt(tasks, byName, log, sent)
  {
    var records := Lp.ListTasks(tasks);
    r, sent := PostCards(records, byName, log);
    CardsSent(tasks, records, byName, log, sent);
    if r.Failure? {
      LoopStop(tasks, records, byName, |sent| - |log|, r.error);
    }
  }

  /**
   * `main` after argument parsing: the list bootstrap, then one card per Launchpad
   * task. If the bootstrap fails nothing is sent. Otherwise the log is the bootstrap's
   * `create_list` requests followed by one `create_card` per task, in task order, each
   * in the list its status selects; every list lookup succeeds, so the loop stops
   * early only at a task whose card `create_card` rejects, with AssertionError.
   */
  method Sync(fetched: seq<BoardList>, boardId: string, ids: nat -> string, tasks: seq<Lp.BugTask>)
    returns (r: Result<(), PyError>, sent: seq<Request>)
    ensures r.Failure? ==> r.error == AssertionError
    ensures var boot := EnsureAll(ListsByName(fetched), [], ids, boardId, RequiredLists);
      boot.result.Failure? ==> r.Failure? && sent == []
    ensures var boot := EnsureAll(ListsByName(fetched), [], ids, boardId, RequiredLists);
      boot.result.Success? ==>
        && |boot.log| <= |sent| <= |boot.log| + |tasks|
        && sent[.. |boot.log|] == boot.log
        && (r.Success? <==> |sent| == |boot.log| + |tasks|)
    ensures var boot := EnsureAll(ListsByName(fetched), [], ids, boardId, RequiredLists);
      boot.result.Success? ==>
        && |boot.log| <= |sent| <= |boot.log| + |tasks|
        && CardsFollow(tasks, boot.result.value, boot.log, sent)
    ensures var boot := EnsureAll(ListsByName(fetched), [], ids, boardId, RequiredLists);
      boot.result.Success? && r.Failure? ==> StoppedAt(tasks, boot.result.value, boot.log, sent)
  {
    ghost var boot := EnsureAll(ListsByName(fetched), [], ids, boardId, RequiredLists);
    var lists;
    lists, sent := CreateListsAsNecessary(fetched, boardId, ids, []);
    assert boot == Sent(lists, sent);
    if lists.Failure? {
      r := Failure(lists.error);
    } else {
      ghost var before := sent;
      r, sent := PostTaskCards(tasks, lists.value, sent);
      assert boot.result.value == lists.value && boot.log == before;
    }
  }
}
