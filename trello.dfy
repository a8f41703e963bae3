/**
 * The board side of launchpad2trello/trello.py: the argument checks of the HTTP
 * wrappers, the `lists_by_name` bootstrap of `create_lists_as_necessary` and the
 * card index of `index_cards`.
 *
 * The network is modelled by its inputs and outputs. What a GET returns is a
 * parameter (the fetched lists, the fetched cards, the canonical board id). Every
 * request that is sent is appended to a request log, a `seq<Request>` threaded
 * through the calls. The id the board service gives to an object it creates is
 * `ids(n)`, where `n` is the position of the creating request in that log.
 */
module Trello {
  import opened Wrappers
  import opened TaskRe

  /** The Python exceptions the modelled code can raise. */
  datatype PyError = AssertionError | TypeError | AttributeError | KeyError

  /** The `position` argument of `create_list`: None, a string, or an int. */
  datatype Position = NoPosition | PositionText(text: string) | PositionInt(n: int)

  /** One HTTP request to the board service, with its payload. */
  datatype Request =
    | PostList(boardId: string, name: string, pos: Position)
    | PostCard(listId: string, name: string, description: string, url: string)
    | PutCardName(cardId: string, name: string)
    | PutCardList(cardId: string, listId: string)
    | PutCardLabel(cardId: string, color: string)

  /** A board list as the lists GET returns it. */
  datatype BoardList = BoardList(id: string, name: string)

  /** A card as the cards GET returns it. */
  datatype Card = Card(id: string, name: string, idList: string)

  /**
   * A value of `lists_by_name`: a list dict, or the bare id string that
   * trello.py:153 stores for a list it has just created.
   */
  datatype ListEntry = ListDict(list: BoardList) | BareId(id: string)

  /** What a call returns or raises, and the request log after it. */
  datatype Sent<+T> = Sent(result: Result<T, PyError>, log: seq<Request>)

  /** The longest name or description the wrappers accept. */
  const MaxText: nat := 16384

  /** The four list names `create_lists_as_necessary` ensures, in the order it ensures them. */
  const RequiredLists: seq<string> := ["Backlog", "Approved", "Doing", "Done"]

  // ---------------------------------------------------------------------------
  // The wrappers' argument checks. Each `assert` fails before the request is
  // built, so a rejected call sends nothing.

  /** The payload of `create_list` (lines 53-62), or the AssertionError of its checks. */
  function CreateListRequest(boardId: string, name: string, pos: Position): (r: Result<Request, PyError>)
    ensures r.Success? <==>
      && boardId != ""
      && 1 <= |name| <= MaxText
      && (pos == NoPosition || pos == PositionText("top") || pos == PositionText("bottom") || pos.PositionInt?)
    ensures r.Success? ==> r.value == PostList(boardId, name, pos)
    ensures r.Failure? ==> r.error == AssertionError
  {
    if boardId == "" then Failure(AssertionError)
    else if !(1 <= |name| <= MaxText) then Failure(AssertionError)
    else if !(pos == NoPosition || pos == PositionText("top") || pos == PositionText("bottom") || pos.PositionInt?) then Failure(AssertionError)
    else Success(PostList(boardId, name, pos))
  }

  /** The payload of `create_card` (lines 70-81), or the AssertionError of its checks. */
  function CreateCardRequest(listId: string, name: string, description: string, url: string): (r: Result<Request, PyError>)
    ensures r.Success? <==> listId != "" && 1 <= |name| <= MaxText && 1 <= |description| <= MaxText && url != ""
    ensures r.Success? ==> r.value == PostCard(listId, name, description, url)
    ensures r.Failure? ==> r.error == AssertionError
  {
    if listId == "" then Failure(AssertionError)
    else if !(1 <= |name| <= MaxText) then Failure(AssertionError)
    else if !(1 <= |description| <= MaxText) then Failure(AssertionError)
    else if url == "" then Failure(AssertionError)
    else Success(PostCard(listId, name, description, url))
  }

  /** The request of `update_card_name` (lines 89-98); the card id is not checked. */
  function UpdateCardNameRequest(cardId: string, name: string): (r: Result<Request, PyError>)
    ensures r.Success? <==> 1 <= |name| <= MaxText
    ensures r.Success? ==> r.value == PutCardName(cardId, name)
    ensures r.Failure? ==> r.error == AssertionError
  {
    if !(1 <= |name| <= MaxText) then Failure(AssertionError)
    else Success(PutCardName(cardId, name))
  }

  /** The request of `update_card_list` (lines 103-113). */
  function UpdateCardListRequest(cardId: string, listId: string): (r: Result<Request, PyError>)
    ensures r.Success? <==> cardId != "" && listId != ""
    ensures r.Success? ==> r.value == PutCardList(cardId, listId)
    ensures r.Failure? ==> r.error == AssertionError
  {
    if cardId == "" then Failure(AssertionError)
    else if listId == "" then Failure(AssertionError)
    else Success(PutCardList(cardId, listId))
  }

  /** The request of `update_card_label` (lines 118-127); the color is not checked. */
  function UpdateCardLabelRequest(cardId: string, color: string): (r: Result<Request, PyError>)
    ensures r.Success? <==> cardId != ""
    ensures r.Success? ==> r.value == PutCardLabel(cardId, color)
    ensures r.Failure? ==> r.error == AssertionError
  {
    if cardId == "" then Failure(AssertionError)
    else Success(PutCardLabel(cardId, color))
  }

  /**
   * `create_list` with its reply read as `r.json()['id']`, the evidently intended
   * reading of line 67 (see TrelloAsWritten.CreateListAsWritten for the line as written).
   */
  function CreateList(log: seq<Request>, ids: nat -> string, boardId: string, name: string, pos: Position): (o: Sent<string>)
    ensures o.result.Success? <==> CreateListRequest(boardId, name, pos).Success?
    ensures o.result.Success? ==> o.result.value == ids(|log|) && o.log == log + [PostList(boardId, name, pos)]
    ensures o.result.Failure? ==> o.result.error == AssertionError && o.log == log
  {
    match CreateListRequest(boardId, name, pos)
    case Failure(e) => Sent(Failure(e), log)
    case Success(req) => Sent(Success(ids(|log|)), log + [req])
  }

  /** The id of a `lists_by_name` value, `entry['id']`; indexing a string by 'id' raises TypeError. */
  function ListIdOf(entry: ListEntry): (r: Result<string, PyError>)
    ensures r.Success? <==> entry.ListDict?
    ensures r.Success? ==> r.value == entry.list.id
    ensures r.Failure? ==> r.error == TypeError
  {
    match entry
    case ListDict(l) => Success(l.id)
    case BareId(_) => Failure(TypeError)
  }

  // ---------------------------------------------------------------------------
  // create_lists_as_necessary

  /** `dict([(x['name'], x) for x in lists])` (line 148): later pairs overwrite earlier ones. */
  function ListsByName(lists: seq<BoardList>): map<string, ListEntry>
  {
    if lists == [] then map[]
    else ListsByName(lists[.. |lists| - 1])[lists[|lists| - 1].name := ListDict(lists[|lists| - 1])]
  }

  /** `lists[i]` is the last list named `k`. */
  predicate LastNamed(lists: seq<BoardList>, i: int, k: string) {
    0 <= i < |lists| && lists[i].name == k && forall j :: i < j < |lists| ==> lists[j].name != k
  }

  /**
   * Every fetched name is a key of `lists_by_name` and nothing else is; a name fetched
   * more than once is bound to the last list with that name.
   */
  lemma {:induction false} ListsByNameLastWins(lists: seq<BoardList>)
    ensures forall k :: k in ListsByName(lists) <==> exists i :: 0 <= i < |lists| && lists[i].name == k
    ensures forall k :: k in ListsByName(lists) ==> exists i :: LastNamed(lists, i, k) && ListsByName(lists)[k] == ListDict(lists[i])
  {
    if lists != [] {
      var init, last := lists[.. |lists| - 1], lists[|lists| - 1];
      ListsByNameLastWins(init);
      assert forall i :: 0 <= i < |init| ==> init[i] == lists[i];
      assert ListsByName(lists) == ListsByName(init)[last.name := ListDict(last)];
      forall k | k in ListsByName(lists)
        ensures exists i :: LastNamed(lists, i, k) && ListsByName(lists)[k] == ListDict(lists[i])
      {
        if k == last.name {
          assert LastNamed(lists, |lists| - 1, k);
        } else {
          assert k in ListsByName(init);
          var i :| LastNamed(init, i, k) && ListsByName(init)[k] == ListDict(init[i]);
          assert LastNamed(lists, i, k);
        }
      }
    }
  }

  /** Every value of `lists_by_name` built from fetched lists is a list dict. */
  lemma {:induction false} ListsByNameHoldsDicts(lists: seq<BoardList>)
    ensures forall k :: k in ListsByName(lists) ==> ListsByName(lists)[k].ListDict?
  {
    if lists != [] {
      ListsByNameHoldsDicts(lists[.. |lists| - 1]);
    }
  }

  /**
   * One call of the closure at lines 150-153, with line 152 reaching the module-level
   * `create_list` and line 153 storing the created list rather than its bare id.
   */
  function EnsureList(byName: map<string, ListEntry>, log: seq<Request>, ids: nat -> string, boardId: string, name: string)
    : (o: Sent<map<string, ListEntry>>)
    ensures name in byName ==> o == Sent(Success(byName), log)
    ensures name !in byName && !CreateListRequest(boardId, name, NoPosition).Success? ==>
      o == Sent(Failure(AssertionError), log)
    ensures name !in byName && CreateListRequest(boardId, name, NoPosition).Success? ==>
      o == Sent(Success(byName[name := ListDict(BoardList(ids(|log|), name))]), log + [PostList(boardId, name, NoPosition)])
  {
    if name in byName then Sent(Success(byName), log)
    else
      var created := CreateList(log, ids, boardId, name, NoPosition);
      match created.result
      case Failure(e) => Sent(Failure(e), created.log)
      case Success(listId) => Sent(Success(byName[name := ListDict(BoardList(listId, name))]), created.log)
  }

  /** The closure applied to `names` in order; the first exception stops the sequence. */
  function EnsureAll(byName: map<string, ListEntry>, log: seq<Request>, ids: nat -> string, boardId: string, names: seq<string>)
    : Sent<map<string, ListEntry>>
    decreases |names|
  {
    if names == [] then Sent(Success(byName), log)
    else
      var o := EnsureList(byName, log, ids, boardId, names[0]);
      if o.result.Failure? then o else EnsureAll(o.result.value, o.log, ids, boardId, names[1..])
  }

  /** The names of `names` that are not keys of `m`, in order. */
  function Missing(names: seq<string>, m: map<string, ListEntry>): seq<string>
  {
    if names == [] then []
    else (if names[0] in m then [] else [names[0]]) + Missing(names[1..], m)
  }

  /** A name is missing exactly when it is among `names` and not a key of `m`. */
  lemma {:induction false} MissingMembers(names: seq<string>, m: map<string, ListEntry>)
    ensures forall k :: k in Missing(names, m) <==> k in names && k !in m
  {
    if names != [] {
      MissingMembers(names[1..], m);
      assert forall k :: k in names <==> k == names[0] || k in names[1..];
    }
  }

  /** One `create_list` request per name, in order, with the default position. */
  function PostsFor(boardId: string, names: seq<string>): seq<Request>
  {
    if names == [] then [] else [PostList(boardId, names[0], NoPosition)] + PostsFor(boardId, names[1..])
  }

  /** Adding a key that is not among `names` does not change which of them are missing. */
  lemma {:induction false} MissingIgnoresOtherKeys(names: seq<string>, m: map<string, ListEntry>, k: string, v: ListEntry)
    requires k !in names
    ensures Missing(names, m[k := v]) == Missing(names, m)
  {
    if names != [] {
      MissingIgnoresOtherKeys(names[1..], m, k, v);
    }
  }

  /**
   * Ensuring valid names fails only when the board id is empty and some name is
   * missing; it then raises AssertionError before sending anything.
   */
  lemma {:induction false} EnsureAllVerdict(
    byName: map<string, ListEntry>, log: seq<Request>, ids: nat -> string, boardId: string, names: seq<string>)
    requires forall i :: 0 <= i < |names| ==> 1 <= |names[i]| <= MaxText
    ensures var o := EnsureAll(byName, log, ids, boardId, names);
      && (o.result.Success? <==> boardId != "" || Missing(names, byName) == [])
      && (o.result.Failure? ==> o.result.error == AssertionError && o.log == log)
    decreases |names|
  {
    if names != [] {
      var n, rest := names[0], names[1..];
      assert forall i :: 0 <= i < |rest| ==> rest[i] == names[i + 1];
      if n in byName {
        EnsureAllVerdict(byName, log, ids, boardId, rest);
      } else if boardId != "" {
        EnsureAllVerdict(byName[n := ListDict(BoardList(ids(|log|), n))], log + [PostList(boardId, n, NoPosition)], ids, boardId, rest);
      }
    }
  }

  /** Ensuring names never drops a key or changes an existing value, and adds exactly the names. */
  lemma {:induction false} EnsureAllKeys(
    byName: map<string, ListEntry>, log: seq<Request>, ids: nat -> string, boardId: string, names: seq<string>)
    ensures var o := EnsureAll(byName, log, ids, boardId, names);
      o.result.Success? ==>
        && (forall k :: k in o.result.value <==> k in byName || k in names)
        && (forall k :: k in byName ==> o.result.value[k] == byName[k])
    decreases |names|
  {
    if names != [] {
      var o := EnsureList(byName, log, ids, boardId, names[0]);
      if o.result.Success? {
        EnsureAllKeys(o.result.value, o.log, ids, boardId, names[1..]);
        assert forall k :: k in names <==> k == names[0] || k in names[1..];
      }
    }
  }

  /** The head of a list of distinct names is not in its tail, and the tail is distinct. */
  lemma DistinctTail(names: seq<string>)
    requires names != [] && forall i, j :: 0 <= i < j < |names| ==> names[i] != names[j]
    ensures names[0] !in names[1..]
    ensures forall i, j :: 0 <= i < j < |names[1..]| ==> names[1..][i] != names[1..][j]
  {
    var rest := names[1..];
    forall i, j | 0 <= i < j < |rest| ensures rest[i] != rest[j] {
      assert rest[i] == names[i + 1] && rest[j] == names[j + 1];
    }
    forall j | 0 <= j < |rest| ensures rest[j] != names[0] {
      assert rest[j] == names[j + 1];
    }
  }

  /** On success, ensuring distinct names sent one `create_list` per missing name, in order. */
  lemma {:induction false} EnsureAllSends(
    byName: map<string, ListEntry>, log: seq<Request>, ids: nat -> string, boardId: string, names: seq<string>)
    requires forall i, j :: 0 <= i < j < |names| ==> names[i] != names[j]
    ensures var o := EnsureAll(byName, log, ids, boardId, names);
      o.result.Success? ==> o.log == log + PostsFor(boardId, Missing(names, byName))
    decreases |names|
  {
    if names != [] {
      var n, rest := names[0], names[1..];
      DistinctTail(names);
      if n in byName {
        assert Missing(names, byName) == [] + Missing(rest, byName) == Missing(rest, byName);
        assert EnsureAll(byName, log, ids, boardId, names) == EnsureAll(byName, log, ids, boardId, rest);
        EnsureAllSends(byName, log, ids, boardId, rest);
      } else if CreateListRequest(boardId, n, NoPosition).Success? {
        var post := PostList(boardId, n, NoPosition);
        var entry := ListDict(BoardList(ids(|log|), n));
        var missing := Missing(rest, byName);
        assert EnsureAll(byName, log, ids, boardId, names) == EnsureAll(byName[n := entry], log + [post], ids, boardId, rest);
        assert Missing(names, byName) == [n] + missing;
        MissingIgnoresOtherKeys(rest, byName, n, entry);
        EnsureAllSends(byName[n := entry], log + [post], ids, boardId, rest);
        assert PostsFor(boardId, [n] + missing) == [post] + PostsFor(boardId, missing);
        assert (log + [post]) + PostsFor(boardId, missing) == log + ([post] + PostsFor(boardId, missing));
      }
    }
  }

  /**
   * On success, ensuring distinct names bound the i-th missing name to the list the
   * service created for the i-th new request.
   */
  lemma {:induction false} EnsureAllBinds(
    byName: map<string, ListEntry>, log: seq<Request>, ids: nat -> string, boardId: string, names: seq<string>)
    requires forall i, j :: 0 <= i < j < |names| ==> names[i] != names[j]
    ensures var o := EnsureAll(byName, log, ids, boardId, names); var miss := Missing(names, byName);
      o.result.Success? ==>
        forall i :: 0 <= i < |miss| ==> miss[i] in o.result.value && o.result.value[miss[i]] == ListDict(BoardList(ids(|log| + i), miss[i]))
    decreases |names|
  {
    if names != [] {
      var n, rest := names[0], names[1..];
      DistinctTail(names);
      if n in byName {
        assert Missing(names, byName) == [] + Missing(rest, byName) == Missing(rest, byName);
        assert EnsureAll(byName, log, ids, boardId, names) == EnsureAll(byName, log, ids, boardId, rest);
        EnsureAllBinds(byName, log, ids, boardId, rest);
      } else if CreateListRequest(boardId, n, NoPosition).Success? {
        var post := PostList(boardId, n, NoPosition);
        var entry := ListDict(BoardList(ids(|log|), n));
        var missing := Missing(rest, byName);
        assert EnsureAll(byName, log, ids, boardId, names) == EnsureAll(byName[n := entry], log + [post], ids, boardId, rest);
        assert Missing(names, byName) == [n] + missing;
        assert |log + [post]| == |log| + 1;
        MissingIgnoresOtherKeys(rest, byName, n, entry);
        EnsureAllBinds(byName[n := entry], log + [post], ids, boardId, rest);
        EnsureAllKeys(byName[n := entry], log + [post], ids, boardId, rest);
      }
    }
  }

  /** Ensuring names on a map of list dicts yields a map of list dicts. */
  lemma {:induction false} EnsureAllHoldsDicts(
    byName: map<string, ListEntry>, log: seq<Request>, ids: nat -> string, boardId: string, names: seq<string>)
    requires forall k :: k in byName ==> byName[k].ListDict?
    ensures var o := EnsureAll(byName, log, ids, boardId, names);
      o.result.Success? ==> forall k :: k in o.result.value ==> o.result.value[k].ListDict?
    decreases |names|
  {
    if names != [] {
      var o := EnsureList(byName, log, ids, boardId, names[0]);
      if o.result.Success? {
        EnsureAllHoldsDicts(o.result.value, o.log, ids, boardId, names[1..]);
      }
    }
  }

  /**
   * What ensuring the four required names on `lists_by_name` amounts to: it fails only
   * if the board id is empty while a required list is missing, and raises
   * AssertionError without sending; on success the four names are keys whose `['id']`
   * lookup succeeds, no other key is added, every fetched entry is kept, and one
   * `create_list` was sent per missing name.
   */
  lemma BootstrapOutcome(fetched: seq<BoardList>, boardId: string, ids: nat -> string, log: seq<Request>)
    ensures var o := EnsureAll(ListsByName(fetched), log, ids, boardId, RequiredLists); var r := o.result;
      && (r.Success? <==> boardId != "" || forall n :: n in RequiredLists ==> n in ListsByName(fetched))
      && (r.Failure? ==> r.error == AssertionError && o.log == log)
      && (r.Success? ==> o.log == log + PostsFor(boardId, Missing(RequiredLists, ListsByName(fetched))))
      && (r.Success? ==> forall k :: k in r.value <==> k in ListsByName(fetched) || k in RequiredLists)
      && (r.Success? ==> forall k :: k in ListsByName(fetched) ==> r.value[k] == ListsByName(fetched)[k])
      && (r.Success? ==> forall n :: n in RequiredLists ==> n in r.value && ListIdOf(r.value[n]).Success?)
  {
    var start := ListsByName(fetched);
    EnsureAllVerdict(start, log, ids, boardId, RequiredLists);
    EnsureAllKeys(start, log, ids, boardId, RequiredLists);
    EnsureAllSends(start, log, ids, boardId, RequiredLists);
    ListsByNameHoldsDicts(fetched);
    EnsureAllHoldsDicts(start, log, ids, boardId, RequiredLists);
    MissingMembers(RequiredLists, start);
  }

  /**
   * `create_lists_as_necessary` after the board id exchange (lines 143-160): build
   * `lists_by_name` from the fetched lists, then ensure the four required names in
   * place. It fails only if the board id is empty while a required list is missing.
   * On success the four names are keys whose `['id']` lookup succeeds, no other key is
   * added, every fetched entry is kept, and one `create_list` was sent per missing name.
   */
  method CreateListsAsNecessary(fetched: seq<BoardList>, boardId: string, ids: nat -> string, log: seq<Request>)
    returns (r: Result<map<string, ListEntry>, PyError>, sent: seq<Request>)
    ensures Sent(r, sent) == EnsureAll(ListsByName(fetched), log, ids, boardId, RequiredLists)
    ensures r.Success? <==> boardId != "" || forall n :: n in RequiredLists ==> n in ListsByName(fetched)
    ensures r.Failure? ==> r.error == AssertionError && sent == log
    ensures r.Success? ==> sent == log + PostsFor(boardId, Missing(RequiredLists, ListsByName(fetched)))
    ensures r.Success? ==> forall k :: k in r.value <==> k in ListsByName(fetched) || k in RequiredLists
    ensures r.Success? ==> forall k :: k in ListsByName(fetched) ==> r.value[k] == ListsByName(fetched)[k]
    ensures r.Success? ==> forall n :: n in RequiredLists ==> n in r.value && ListIdOf(r.value[n]).Success?
  {
    var listsByName := ListsByName(fetched);
    ghost var start := listsByName;
    ghost var goal := EnsureAll(start, log, ids, boardId, RequiredLists);
    assert RequiredLists[1..][1..][1..][1..] == [];
    sent := log;
    var o := EnsureList(listsByName, sent, ids, boardId, "Backlog");
    assert goal == if o.result.Failure? then o else EnsureAll(o.result.value, o.log, ids, boardId, RequiredLists[1..]);
    if o.result.Success? {
      listsByName, sent := o.result.value, o.log;
      o := EnsureList(listsByName, sent, ids, boardId, "Approved");
      assert goal == if o.result.Failure? then o else EnsureAll(o.result.value, o.log, ids, boardId, RequiredLists[1..][1..]);
    }
    if o.result.Success? {
      listsByName, sent := o.result.value, o.log;
      o := EnsureList(listsByName, sent, ids, boardId, "Doing");
      assert goal == if o.result.Failure? then o else EnsureAll(o.result.value, o.log, ids, boardId, RequiredLists[1..][1..][1..]);
    }
    if o.result.Success? {
      listsByName, sent := o.result.value, o.log;
      o := EnsureList(listsByName, sent, ids, boardId, "Done");
      assert goal == if o.result.Failure? then o else EnsureAll(o.result.value, o.log, ids, boardId, RequiredLists[1..][1..][1..][1..]);
    }
    r, sent := o.result, o.log;
    BootstrapOutcome(fetched, boardId, ids, log);
  }

  // ---------------------------------------------------------------------------
  // index_cards

  /** Some card of `cards[..n]` has a name that yields `k`. */
  ghost predicate Yields(cards: seq<Card>, n: int, k: string) {
    exists i :: 0 <= i < n <= |cards| && TaskId(cards[i].name) == Some(k)
  }

  /** `cards[i]` is the last card of `cards[..n]` whose name yields `k`. */
  ghost predicate LastYielding(cards: seq<Card>, n: int, i: int, k: string) {
    0 <= i < n <= |cards| && TaskId(cards[i].name) == Some(k) && forall j :: i < j < n ==> TaskId(cards[j].name) != Some(k)
  }

  /** What the index of `cards[..n]` holds: every yielded id, mapped to its last card. */
  ghost predicate IndexOf(cards: seq<Card>, n: int, index: map<string, Card>) {
    && (forall k :: k in index <==> Yields(cards, n, k))
    && (forall k :: k in index ==> exists i :: LastYielding(cards, n, i, k) && index[k] == cards[i])
  }

  /** One iteration of the `index_cards` loop keeps the key set of `IndexOf`. */
  lemma IndexStepKeys(cards: seq<Card>, n: nat, found: Option<string>, before: map<string, Card>, index: map<string, Card>)
    requires n < |cards| && found == TaskId(cards[n].name)
    requires forall k :: k in before <==> Yields(cards, n, k)
    requires index == if found.Some? then before[found.value := cards[n]] else before
    ensures forall k :: k in index <==> Yields(cards, n + 1, k)
  {
    forall k ensures k in index <==> Yields(cards, n + 1, k) {
      if Yields(cards, n + 1, k) && found != Some(k) {
        var i :| 0 <= i < n + 1 && TaskId(cards[i].name) == Some(k);
        assert Yields(cards, n, k);
      }
      if k in before {
        var i :| 0 <= i < n && TaskId(cards[i].name) == Some(k);
        assert Yields(cards, n + 1, k);
      }
      if found == Some(k) {
        assert Yields(cards, n + 1, k);
      }
    }
  }

  /** After one iteration of the `index_cards` loop, the id `k` is still bound to its last card. */
  lemma IndexStepLastAt(cards: seq<Card>, n: nat, found: Option<string>, before: map<string, Card>, index: map<string, Card>, k: string)
    requires n < |cards| && found == TaskId(cards[n].name)
    requires k in before ==> exists i :: LastYielding(cards, n, i, k) && before[k] == cards[i]
    requires index == if found.Some? then before[found.value := cards[n]] else before
    requires k in index
    ensures exists i :: LastYielding(cards, n + 1, i, k) && index[k] == cards[i]
  {
    if found == Some(k) {
      assert LastYielding(cards, n + 1, n, k);
    } else {
      var i :| LastYielding(cards, n, i, k) && before[k] == cards[i];
      assert LastYielding(cards, n + 1, i, k);
    }
  }

  /** One iteration of the `index_cards` loop keeps every id bound to its last card. */
  lemma IndexStepLast(cards: seq<Card>, n: nat, found: Option<string>, before: map<string, Card>, index: map<string, Card>)
    requires n < |cards| && found == TaskId(cards[n].name)
    requires forall k :: k in before ==> exists i :: LastYielding(cards, n, i, k) && before[k] == cards[i]
    requires index == if found.Some? then before[found.value := cards[n]] else before
    ensures forall k :: k in index ==> exists i :: LastYielding(cards, n + 1, i, k) && index[k] == cards[i]
  {
    forall k | k in index ensures exists i :: LastYielding(cards, n + 1, i, k) && index[k] == cards[i] {
      IndexStepLastAt(cards, n, found, before, index, k);
    }
  }

  /** One iteration of the `index_cards` loop keeps `IndexOf`. */
  lemma IndexStep(cards: seq<Card>, n: nat, found: Option<string>, before: map<string, Card>, index: map<string, Card>)
    requires n < |cards| && found == TaskId(cards[n].name) && IndexOf(cards, n, before)
    requires index == if found.Some? then before[found.value := cards[n]] else before
    ensures IndexOf(cards, n + 1, index)
  {
    IndexStepKeys(cards, n, found, before, index);
    IndexStepLast(cards, n, found, before, index);
  }

  /**
   * The loop of `index_cards` (lines 179-186): a card is indexed exactly when its name
   * yields a task id, under that id; a later card with the same id replaces an earlier
   * one; every value is one of the input cards, unchanged.
   */
  method IndexCards(cards: seq<Card>) returns (index: map<string, Card>)
    ensures forall k :: k in index <==> Yields(cards, |cards|, k)
    ensures forall k :: k in index ==> exists i :: LastYielding(cards, |cards|, i, k) && index[k] == cards[i]
  {
    index := map[];
    for n := 0 to |cards|
      invariant IndexOf(cards, n, index)
    {
      var found := TaskId(cards[n].name);
      ghost var before := index;
      if found.Some? {
        index := index[found.value := cards[n]];
      }
      IndexStep(cards, n, found, before, index);
    }
  }
}
