/**
 * Three lines of launchpad2trello/trello.py as they are written, each beside the
 * corrected member of module Trello that the rest of the model uses.
 *
 * - Line 152 calls `create_list(key, token, board_id, name=list_name)` inside a
 *   closure that is itself named `create_list` and takes one argument, so the name
 *   resolves to the closure and the call raises TypeError before any request.
 * - Line 153 stores the bare id string that `create_list` returns, while line 148
 *   stores list dicts and `main` reads `['id']` from the value the task's status
 *   selects (launchpad2trello/cli.py:35-41).
 * - Line 67 reads the reply with `r.body()`, which a `requests` response does not
 *   have, so it raises AttributeError after the list was created.
 */
module TrelloAsWritten {
  import opened Wrappers
  import opened Trello

  /** `create_list` as written: the POST is sent, then `r.body()` raises AttributeError. */
  function CreateListAsWritten(log: seq<Request>, ids: nat -> string, boardId: string, name: string, pos: Position)
    : Sent<string>
  {
    match CreateListRequest(boardId, name, pos)
    case Failure(e) => Sent(Failure(e), log)
    case Success(req) => Sent(Failure(AttributeError), log + [req])
  }

  /**
   * As written, `create_list` never returns an id: with valid arguments it still
   * creates the list on the board, and the caller gets AttributeError. The corrected
   * Trello.CreateList returns the id the service assigned.
   */
  lemma CreateListAsWrittenLosesId(log: seq<Request>, ids: nat -> string, boardId: string, name: string, pos: Position)
    requires CreateListRequest(boardId, name, pos).Success?
    ensures CreateListAsWritten(log, ids, boardId, name, pos) == Sent(Failure(AttributeError), log + [PostList(boardId, name, pos)])
    ensures CreateList(log, ids, boardId, name, pos) == Sent(Success(ids(|log|)), log + [PostList(boardId, name, pos)])
  {
  }

  /** The closure at lines 150-153 as written: a missing name makes line 152 raise TypeError. */
  function EnsureListShadowed(byName: map<string, ListEntry>, name: string): Result<map<string, ListEntry>, PyError>
  {
    if name in byName then Success(byName) else Failure(TypeError)
  }

  /** Lines 148-160 as written, after the board id exchange. */
  function CreateListsAsWritten(fetched: seq<BoardList>): Result<map<string, ListEntry>, PyError>
  {
    var m := ListsByName(fetched);
    match EnsureListShadowed(m, "Backlog")
    case Failure(e) => Failure(e)
    case Success(m1) =>
      match EnsureListShadowed(m1, "Approved")
      case Failure(e) => Failure(e)
      case Success(m2) =>
        match EnsureListShadowed(m2, "Doing")
        case Failure(e) => Failure(e)
        case Success(m3) => EnsureListShadowed(m3, "Done")
  }

  /**
   * As written, the bootstrap succeeds only on a board that already has all four
   * lists, and then changes nothing: it can never create a list.
   */
  lemma CreateListsAsWrittenNeverCreates(fetched: seq<BoardList>)
    ensures CreateListsAsWritten(fetched).Success? <==> forall n :: n in RequiredLists ==> n in ListsByName(fetched)
    ensures CreateListsAsWritten(fetched).Success? ==> CreateListsAsWritten(fetched).value == ListsByName(fetched)
    ensures CreateListsAsWritten(fetched).Failure? ==> CreateListsAsWritten(fetched).error == TypeError
  {
    var m := ListsByName(fetched);
    assert RequiredLists == ["Backlog", "Approved", "Doing", "Done"];
    assert (forall n :: n in RequiredLists ==> n in m) <==> "Backlog" in m && "Approved" in m && "Doing" in m && "Done" in m;
  }

  /** A concrete input: on an empty board the bootstrap as written raises TypeError. */
  lemma EmptyBoardRaisesTypeError()
    ensures CreateListsAsWritten([]) == Failure(TypeError)
  {
    assert "Backlog" !in ListsByName([]);
  }

  /** Line 153 as written, with line 152 reaching the module-level `create_list` (read with `r.json()`). */
  function EnsureListBareId(byName: map<string, ListEntry>, log: seq<Request>, ids: nat -> string, boardId: string, name: string)
    : Sent<map<string, ListEntry>>
  {
    if name in byName then Sent(Success(byName), log)
    else
      var created := CreateList(log, ids, boardId, name, NoPosition);
      match created.result
      case Failure(e) => Sent(Failure(e), created.log)
      case Success(listId) => Sent(Success(byName[name := BareId(listId)]), created.log)
  }

  /**
   * A list created by line 153 as written is stored as its bare id, so the
   * `lists_by_name[name]['id']` lookup of launchpad2trello/cli.py:35-41, made for a
   * task whose status selects that list, raises TypeError for it; the corrected Trello.EnsureList stores a list whose `['id']` is the new id.
   */
  lemma BareIdBreaksListLookup(byName: map<string, ListEntry>, log: seq<Request>, ids: nat -> string, boardId: string, name: string)
    requires name !in byName && CreateListRequest(boardId, name, NoPosition).Success?
    ensures EnsureListBareId(byName, log, ids, boardId, name).result.Success?
    ensures ListIdOf(EnsureListBareId(byName, log, ids, boardId, name).result.value[name]) == Failure(TypeError)
    ensures ListIdOf(EnsureList(byName, log, ids, boardId, name).result.value[name]) == Success(ids(|log|))
  {
  }
}
