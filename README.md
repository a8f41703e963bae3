# launchpad2trello, modelled in Dafny

launchpad2trello copies the bug tasks of a Launchpad project onto a Trello board.
This early version makes sure the board has the lists `Backlog`, `Approved`,
`Doing` and `Done`. It then creates one card per Launchpad bug task, named
`Bug <id>: <title>`, in the list chosen by the task's status. It also has an
index from the bug id in a card's title to the card, built with the title
pattern `^Bug ([0-9]+): `, but `main` never uses it.

The model covers three source files.

- `task_re.dfy` (module `TaskRe`): the title pattern `TASK_RE` as `re.search`
  applies it under `re.MULTILINE`. A match may start at offset 0 or just after a
  newline, `[0-9]+` is greedy, and the leftmost match wins. The executable
  matcher is proved equal to a declarative reading of the pattern.
- `trello.dfy` (module `Trello`): the argument checks of the HTTP wrappers, the
  `lists_by_name` bootstrap of `create_lists_as_necessary`, and the card index
  of `index_cards`. The network is modelled as inputs: the fetched lists, the
  fetched cards and the canonical board id are parameters. Every request sent is
  appended to a request log (`seq<Request>`). The board service's fresh ids come
  from an oracle `ids: nat -> string`: the object created by the request at log
  position `n` gets id `ids(n)`. A failed Python `assert` is
  `Failure(AssertionError)`, and no request is sent for it.
- `trello_as_written.dfy` (module `TrelloAsWritten`): three lines of `trello.py`
  as they are written (see Findings). Module `Trello` holds the corrected
  versions, and the rest of the model uses those.
- `cli.dfy` (module `Cli`): the status to list rule table, the card name and
  description, and the per-task `create_card` loop of `main`.
- `lp.dfy` (module `Lp`): the record `list_tasks` yields for each bug task.
- `wrappers.dfy` (module `Wrappers`): `Option` and `Result`.

Facts about this version of the code that the model follows:

- A `Fix Committed` task goes to `Done`.
- There is no rule for `Fix Released` or for milestones, and no labels are set.
- The title pattern may match at the start of any line of the card name.
- When two cards carry the same id, the index keeps the last of them.

## Model

| member | source | states |
|---|---|---|
| `TaskRe.DigitRun` | launchpad2trello/trello.py:17 | `[0-9]+` is greedy: the run is all digits and is followed by a non-digit or the end of the name |
| `TaskRe.MatchAt` | launchpad2trello/trello.py:17 | one attempt of the pattern at an offset; `TaskRe.MatchAtMeaning` states what it yields |
| `TaskRe.MatchAtMeaning` | launchpad2trello/trello.py:17 | at one offset, the match yields group `d` exactly when that offset starts a line and the text there begins with `Bug ` + `d` + `: `, with `d` non-empty digits; so the group at an offset is unique |
| `TaskRe.SearchFrom` | launchpad2trello/trello.py:17 | `re.search` from an offset; `TaskRe.SearchFromNone` and `TaskRe.SearchFromSome` state that it yields the group of the leftmost matching offset, or nothing when no offset matches |
| `TaskRe.SearchFromNone` | launchpad2trello/trello.py:17 | searching from an offset finds nothing exactly when no later offset matches |
| `TaskRe.SearchFromSome` | launchpad2trello/trello.py:17 | searching from an offset yields `d` exactly when the leftmost matching offset has group `d` |
| `TaskRe.TaskId` | launchpad2trello/trello.py:181-183 | `re.search(TASK_RE, name).group(1)`, or None without a match; `TaskRe.TaskIdMeaning` states its meaning and `Cli.CardNameRoundTrip` that it reads back the id of a card name |
| `TaskRe.TaskIdMeaning` | launchpad2trello/trello.py:181-183 | a card name yields an id exactly when one of its lines starts with `Bug <digits>: `; the id is the digit string of the first such line |
| `TaskRe.LeadingTaskLine` | launchpad2trello/trello.py:17 | a name that starts with `Bug ` + digits + `: ` yields those digits, whatever follows |
| `Trello.CreateListRequest` | launchpad2trello/trello.py:53-62 | `create_list` rejects an empty board id, a name outside 1..16384 characters, and a position other than None, 'top', 'bottom' or an int; otherwise the payload carries exactly its arguments |
| `Trello.CreateCardRequest` | launchpad2trello/trello.py:70-81 | `create_card` rejects an empty list id, a name or description outside 1..16384 characters, and an empty url, before any request; otherwise the payload carries its arguments |
| `Trello.UpdateCardNameRequest` | launchpad2trello/trello.py:89-98 | `update_card_name` rejects exactly the names outside 1..16384 characters; the card id is not checked |
| `Trello.UpdateCardListRequest` | launchpad2trello/trello.py:103-113 | `update_card_list` rejects exactly an empty card id or an empty list id |
| `Trello.UpdateCardLabelRequest` | launchpad2trello/trello.py:118-127 | `update_card_label` rejects exactly an empty card id; the color is not checked |
| `Trello.CreateList` | launchpad2trello/trello.py:53-67 | with valid arguments one POST is appended to the log and the result is the id the service gave it; with invalid ones nothing is sent and AssertionError is raised |
| `Trello.ListIdOf` | launchpad2trello/cli.py:35-41 | `['id']` on a value of `lists_by_name` succeeds exactly on a list dict, giving its id, and raises TypeError otherwise |
| `Trello.ListsByName` | launchpad2trello/trello.py:148 | `dict([(x['name'], x) for x in lists])`; `Trello.ListsByNameLastWins` and `Trello.ListsByNameHoldsDicts` state its keys and values |
| `Trello.ListsByNameLastWins` | launchpad2trello/trello.py:148 | the keys of `lists_by_name` are exactly the fetched names; a name fetched twice is bound to the last list with that name |
| `Trello.ListsByNameHoldsDicts` | launchpad2trello/trello.py:148 | every value built from the fetched lists is a list dict |
| `Trello.EnsureList` | launchpad2trello/trello.py:150-153 | a present name leaves the map and the log alone; a missing name sends one `create_list` and is bound to the list created for it; an invalid call sends nothing |
| `Trello.EnsureAll` | launchpad2trello/trello.py:150-158 | the corrected closure applied to each name in turn; `Trello.EnsureAllVerdict`, `Trello.EnsureAllKeys`, `Trello.EnsureAllSends`, `Trello.EnsureAllBinds` and `Trello.EnsureAllHoldsDicts` state its outcome |
| `Trello.EnsureAllVerdict` | launchpad2trello/trello.py:150-158 | ensuring valid names fails exactly when the board id is empty and a name is missing, and then sends nothing |
| `Trello.EnsureAllKeys` | launchpad2trello/trello.py:150-158 | ensuring names adds exactly those names as keys and never changes an existing value |
| `Trello.EnsureAllSends` | launchpad2trello/trello.py:150-158 | for distinct names, exactly one `create_list` is sent per missing name, in order |
| `Trello.EnsureAllBinds` | launchpad2trello/trello.py:150-158 | for distinct names, the i-th missing name is bound to the list the service created for the i-th new request |
| `Trello.EnsureAllHoldsDicts` | launchpad2trello/trello.py:150-158 | ensuring names on a map of list dicts leaves a map of list dicts, so every later `['id']` lookup succeeds |
| `Trello.BootstrapOutcome` | launchpad2trello/trello.py:148-158 | ensuring the four names on the fetched lists fails only with an empty board id and a missing list, sending nothing; on success the four names are keys whose `['id']` lookup succeeds, fetched entries are kept, no other key is added, and one `create_list` was sent per missing name |
| `Trello.CreateListsAsNecessary` | launchpad2trello/trello.py:143-160 | afterwards `Backlog`, `Approved`, `Doing` and `Done` are keys whose `['id']` lookup succeeds; fetched names are neither re-created nor overwritten; no other key is added; one `create_list` is sent per missing name; it fails only with an empty board id and a missing list, having sent nothing |
| `Trello.IndexStep` | launchpad2trello/trello.py:180-184 | one iteration of the loop keeps the index invariant: the keys are the ids yielded so far, each bound to the last card yielding it |
| `Trello.IndexCards` | launchpad2trello/trello.py:179-186 | a card is indexed exactly when its name yields a task id, under that id; of cards with the same id the last one wins; every value is an input card, unchanged |
| `TrelloAsWritten.CreateListAsWritten` | launchpad2trello/trello.py:53-67 | `create_list` as written; `TrelloAsWritten.CreateListAsWrittenLosesId` states what it does |
| `TrelloAsWritten.CreateListAsWrittenLosesId` | launchpad2trello/trello.py:63-67 | as written, a valid `create_list` sends the POST and then raises AttributeError; the corrected version returns the new id |
| `TrelloAsWritten.EnsureListShadowed` | launchpad2trello/trello.py:150-152 | the closure as written, whose call at line 152 reaches the closure itself; `TrelloAsWritten.CreateListsAsWrittenNeverCreates` states its effect |
| `TrelloAsWritten.CreateListsAsWritten` | launchpad2trello/trello.py:148-160 | the bootstrap as written; `TrelloAsWritten.CreateListsAsWrittenNeverCreates` and `TrelloAsWritten.EmptyBoardRaisesTypeError` state what it does |
| `TrelloAsWritten.CreateListsAsWrittenNeverCreates` | launchpad2trello/trello.py:148-158 | as written, the bootstrap succeeds exactly when all four lists already exist, then returns `lists_by_name` unchanged, and otherwise raises TypeError |
| `TrelloAsWritten.EmptyBoardRaisesTypeError` | launchpad2trello/trello.py:150-155 | as written, the bootstrap raises TypeError on a board with no lists |
| `TrelloAsWritten.EnsureListBareId` | launchpad2trello/trello.py:150-153 | the closure with lines 152 and 67 corrected but line 153 as written; `TrelloAsWritten.BareIdBreaksListLookup` states what it stores |
| `TrelloAsWritten.BareIdBreaksListLookup` | launchpad2trello/trello.py:151-153 | storing the bare id makes the later `['id']` lookup raise TypeError; the corrected closure's entry yields the new id |
| `Cli.ListFor` | launchpad2trello/cli.py:34-41 | the if/elif chain on the status; `Cli.ListForRules` states it |
| `Cli.ListForRules` | launchpad2trello/cli.py:34-41 | `Triaged` or `Confirmed` gives `Approved`, `In Progress` gives `Doing`, `Fix Committed` gives `Done`, any other status gives `Backlog`, each in both directions; the result is always one of the four ensured names |
| `Cli.ListIdFor` | launchpad2trello/cli.py:35-41 | `lists_by_name[name]['id']` raises KeyError exactly when the name is not a key, and otherwise is the `['id']` lookup on its value |
| `Cli.Decimal` | launchpad2trello/cli.py:47-48 | `str(id)` is a non-empty string of digits with no leading zero |
| `Cli.DecimalRoundTrip` | launchpad2trello/cli.py:47-48 | reading the digits of an id back gives the id |
| `Cli.CardName` | launchpad2trello/cli.py:47 | `'Bug %s: %s' % (id, title)`; `Cli.CardNameRoundTrip` states that TASK_RE reads the id back from it |
| `Cli.CardNameRoundTrip` | launchpad2trello/cli.py:47 | for any id and title, applying TASK_RE to the card name yields `str(id)`, which reads back as the id |
| `Cli.CardDescription` | launchpad2trello/cli.py:48 | `'Bug #%s' % id`; `Cli.CardSentFor` states that every card sent carries it |
| `Cli.CardRequestFor` | launchpad2trello/cli.py:34-49 | one iteration of the loop; `Cli.CardRequestAfterBootstrap` states what it sends or raises |
| `Cli.CardRequestAfterBootstrap` | launchpad2trello/cli.py:34-49 | once the four lists exist with an id, the list lookup never fails; the card sent is `Bug <id>: <title>` / `Bug #<id>` in the list chosen by status; `create_card` can reject it only for an empty list id or url, or an over-long name or description |
| `Cli.CardSentFor` | launchpad2trello/cli.py:34-49 | after the bootstrap, the card sent for a Launchpad task goes to `lists_by_name[ListFor(status)]['id']`, is named `Bug <id>: <title>`, is described as `Bug #<id>`, carries the task's web link, and passed `create_card`'s checks |
| `Cli.CardRejectedFor` | launchpad2trello/cli.py:34-49 | after the bootstrap, an iteration raises only AssertionError, and only because `create_card` rejects the card; the list lookup succeeded |
| `Cli.PostCards` | launchpad2trello/cli.py:33-49 | one `create_card` per task, in task order, with no lookup of existing cards; the first exception stops the loop and keeps what was sent |
| `Cli.CardsSent` | launchpad2trello/cli.py:33-49 | the requests the loop sent are, for the i-th Launchpad task, the card `Cli.CardSentFor` describes |
| `Cli.LoopStop` | launchpad2trello/cli.py:33-49 | a loop stopped after k cards raised AssertionError at task k, whose card `create_card` rejects |
| `Cli.PostTaskCards` | launchpad2trello/cli.py:33-49 | after the bootstrap, the loop appends one card per task, in task order, each in the list its status selects, with its name, description and web link, and each accepted by `create_card`; it raises only AssertionError, at the first task whose card is rejected, keeping the cards before it |
| `Cli.Sync` | launchpad2trello/cli.py:27-49 | with launchpad2trello/trello.py:67, 152 and 153 corrected and every request succeeding with a reply that parses, `main` raises nothing but AssertionError. A failed bootstrap sends nothing. Otherwise the log is the bootstrap's `create_list` requests, then one card per task in task order, each in `lists_by_name[ListFor(status)]['id']`, named after the task's bug, described as `Bug #<id>`, with its web link, and accepted by `create_card`. It succeeds exactly when every task got its card, and otherwise stops at a task whose card `create_card` rejects |
| `Lp.PersonName` | launchpad2trello/lp.py:30-31 | an owner or assignee is None exactly when the reference is absent, and otherwise is the person's name |
| `Lp.MilestoneName` | launchpad2trello/lp.py:33 | a milestone is None exactly when the reference is absent, and otherwise is the milestone's name |
| `Lp.Normalize` | launchpad2trello/lp.py:25-34 | id and title come from the bug, url from `web_link`, status and importance are copied, and owner, assignee and milestone follow the None-iff-absent rule |
| `Lp.ListTasks` | launchpad2trello/lp.py:24-34 | one record per task, in `searchTasks` order |

## Left out

- `authorize` (launchpad2trello/trello.py:38-50): it opens a browser and reads a token from the terminal.
- `TrelloAuth`, `get_client` and the `requests` calls: HTTP plumbing. What a GET returns is a parameter, a POST or PUT is a log entry, and a created object's id comes from the oracle.
- The board id exchange (launchpad2trello/trello.py:136-141 and 167-172): the canonical board id is a parameter. `index_cards` takes the fetched cards as its input.
- The replies of `create_card` and the `update_card_*` wrappers (`r.json()`): `main` ignores the value `create_card` returns, and nothing in this version calls the update wrappers. Parsing that reply can still raise; see the next line.
- Transport failures of `requests.get`/`post`/`put`, and replies that do not parse (`r.json()` at launchpad2trello/trello.py:86, 141, 146 and 177), are not modelled: every request succeeds and its reply parses. In the program either one raises out of `main` and ends the loop of launchpad2trello/cli.py:33-49. The model's claims that only AssertionError is raised hold under this assumption.
- `main` passes `args.trello_token` to `create_card`. When no token was given, that is None even though `create_lists_as_necessary` obtained one interactively. Authentication is not modelled, so this has no effect in the model.
- `lp.get_client`, the launchpadlib login and its cache directory (launchpad2trello/lp.py:14-16), and the project lookup: the tasks `searchTasks()` returns are the input of `Lp.ListTasks`.
- launchpad2trello/cache.py (response cache configuration) and setup.py (packaging): configuration and I/O with no algorithm.
- Argument parsing in `main` (launchpad2trello/cli.py:8-25).
- Running Python with `-O`, which would disable the `assert` checks: the model keeps them.
- Trello.CreateListRequest: the model's positions are None, a string or an int. A Python `bool` passes `isinstance(position, int)`, while a `float` and a Python 2 `long` are rejected by the assert at launchpad2trello/trello.py:56; the model cannot express these three position types.
- Lp.Normalize: bug ids are modelled as non-negative integers (`nat`); Launchpad bug ids are positive, so `str(id)` never has a minus sign.

## Findings

| source | as written | input that shows it | evidently intended | confidence | as-written member | corrected member |
|---|---|---|---|---|---|---|
| launchpad2trello/trello.py:150-152 | the closure is itself named `create_list` and takes one argument, so line 152 calls the closure with four arguments and raises TypeError | a board with no lists (fetched lists `[]`) | line 152 calls the module-level `create_list(key, token, board_id, name=list_name)` | high; not executed | `TrelloAsWritten.EmptyBoardRaisesTypeError` | `Trello.CreateListsAsNecessary` |
| launchpad2trello/trello.py:153 | stores the bare id string, while line 148 stores list dicts and `main` reads `['id']` from the value the task's status selects (launchpad2trello/cli.py:35-41), which raises TypeError on a string | a board with `Approved`, `Doing` and `Done` but no `Backlog`, a non-empty board id, and a task whose status is none of Triaged, Confirmed, In Progress or Fix Committed (with the other two defects corrected) | store the created list as a dict with its `id` | high; not executed | `TrelloAsWritten.BareIdBreaksListLookup` | `Trello.EnsureList` |
| launchpad2trello/trello.py:67 | `r.body()` is not a method of a `requests` response, so `create_list` raises AttributeError after the list was created | board id `b`, name `Backlog`, no position | `r.json()['id']` | high; not executed | `TrelloAsWritten.CreateListAsWrittenLosesId` | `Trello.CreateList` |
