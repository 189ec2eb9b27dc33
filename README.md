# Task table of the Lab-2 task API, in Dafny

The repository is a small HTTP API (`marj.py`) that keeps task records in a
process-wide list, `task_db`, and offers five handlers over it: get, create,
partial update (PATCH), full replace (PUT) and delete. This project models that
list and the bodies of the five handlers, and proves what each does to the
table.

- `text.dfy`, module `Text`: Python's `str.strip()` over the full set of code
  points that `str.isspace()` accepts, the "blank after stripping" test that
  create and partial update apply, and the decimal rendering of an integer that
  the delete confirmation embeds, with its inverse.
- `tasks.dfy`, module `Tasks`: the `Task` record, the seed record, the lookup
  by id (`Lookup`, the first record with the id), the id that create assigns
  (`NextId`: largest id plus one, or 1 on an empty table), removal of one record
  (`RemoveAt`), and the table invariant `ValidTable` (ids unique and positive)
  with one lemma per kind of change showing that it is kept.
- `store.dfy`, module `Store`: the class `TaskStore` whose field `tasks` is
  `task_db`. `FindTaskById` is the scanning loop with its early return; get only
  reads the table, and the other four handler methods change `tasks` in place
  (append, field-by-field writes to the found record, removal). Every handler
  returns a `Response`: `Ok(task)` for the
  `data` of a success, `Deleted(message)` for the delete confirmation, and
  `NotFound(error)` / `Invalid(error)` for the two error kinds, carrying the
  source's literal messages. `Walkthrough` replays the create / patch / delete
  scenario on the seed table.

No handler method requires the invariant: the source asks nothing of its
callers. Each one that changes the table instead promises
`old(Valid()) ==> Valid()`, and the constructor establishes `Valid()`.

Two behaviours of the code are easy to overlook; the model states them:

- One might expect a rejected partial update to change no field. In the code
  the title is checked and written first, so when a valid title and a blank
  description are both supplied, the error is reported with the new title
  already stored (`UpdateTask`'s contract says exactly this).
- Full replace applies no blank check to title or description, so the "title
  and description are not blank" property is not a table invariant and is not
  claimed as one.

## Model

| member | source | states |
|---|---|---|
| `Text.IsWhitespace` | marj.py:41 | the set of code points Python's `str.isspace()` accepts, which is the set `str.strip()` with no argument removes from both ends |
| `Text.Strip` | marj.py:41 | the stripped text is a slice of the input, everything before and after that slice is whitespace, and the slice neither starts nor ends with whitespace |
| `Text.TrimmedSlice` | marj.py:41 | trimming the leading and then the trailing whitespace keeps the slice that starts after the leading whitespace and drops whitespace only |
| `Text.StripEmptyIffBlank` | marj.py:41 | `s.strip()` is empty exactly when every character of `s` is whitespace (both directions), so `IsBlank`, the test create (line 41) and partial update (lines 62, 66) apply, is the source's `not s.strip()` |
| `Text.IntToDecimal` | marj.py:95 | `str(n)`: a leading minus sign exactly for negative numbers, at least one digit after it, digits only otherwise, no leading zero for a non-zero number, and exactly "0" for zero |
| `Text.DecimalRoundTrip` | marj.py:95 | reading back the digits of a natural number gives the number |
| `Text.IntRoundTrip` | marj.py:95 | reading back the rendering of any integer gives the integer |
| `Text.IntToDecimalInjective` | marj.py:95 | distinct integers render as distinct strings |
| `Store.DeletedMessage` | marj.py:95 | the confirmation is "Task " and " deleted successfully" around exactly `str(task_id)`, which reads back as the deleted id |
| `Store.DeletedMessageInjective` | marj.py:95 | the delete confirmations of two different ids differ |
| `Tasks.Lookup` | marj.py:26-30 | the result is the position of the first record with the id, and None exactly when no record has it |
| `Tasks.LookupAt` | marj.py:26-30 | with unique ids, a lookup of a record's id finds that record's position |
| `Tasks.MaxId` | marj.py:44 | the result is the id of some record and no record has a larger id |
| `Tasks.NextId` | marj.py:44 | the new id is 1 on an empty table, otherwise one more than an existing id, and larger than every existing id |
| `Tasks.NextIdFresh` | marj.py:44 | on a table of positive ids the new id is positive and carried by no record |
| `Tasks.NextIdReusedAfterRemovingMax` | marj.py:44 | ids are not a counter: after the newest record is deleted, create hands out its id again |
| `Tasks.AppendFresh` | marj.py:44-51 | appending a record with the new id to a valid table keeps ids unique and positive |
| `Tasks.LookupAppended` | marj.py:44-51 | after appending a record whose id no record carries, a lookup of that id finds the appended record at the end |
| `Tasks.UpdateKeepsLookups` | marj.py:64-70 | overwriting a record with one of the same id keeps the invariant and changes the result of no lookup |
| `Tasks.RemoveAt` | marj.py:94 | removal shortens the table by one and keeps the other records in their order |
| `Tasks.RemoveKeepsValid` | marj.py:94 | removal keeps the invariant, and with unique ids the removed id is no longer found |
| `Tasks.RemoveHitsFound` | marj.py:94 | no record before the found one equals it, so `list.remove` of the found record removes it at its own position |
| `Store.TaskStore.constructor` | marj.py:7-9 | the table starts as the single seed record with id 1, and the invariant holds |
| `Store.TaskStore.FindTaskById` | marj.py:26-30 | the scan returns the position of the first record with the id, or None, and changes nothing |
| `Store.TaskStore.GetTask` | marj.py:32-37 | answers the record with the id when one exists and NotFound("Task not found") exactly when none does; the table is unchanged |
| `Store.TaskStore.CreateTask` | marj.py:39-52 | a blank title or description gives Invalid with the table unchanged; otherwise exactly one record is appended, with the new id, the given text and flag (false by default), the earlier records untouched, a later lookup finds it, and the invariant is kept |
| `Store.TaskStore.UpdateTask` | marj.py:54-72 | NotFound leaves the table unchanged; a blank supplied title gives Invalid before any write; a blank supplied description gives Invalid with a valid supplied title already written; otherwise only the supplied fields of the found record change; the id, the other records and every lookup stay the same, and the invariant is kept |
| `Store.TaskStore.ReplaceTask` | marj.py:74-85 | NotFound leaves the table unchanged; otherwise title, description and flag of the found record are overwritten with no blank check, the id and the other records stay, and the invariant is kept |
| `Store.TaskStore.DeleteTask` | marj.py:87-95 | NotFound leaves the table unchanged; otherwise exactly the found record is removed, the others keep their order, the confirmation names the id, and on a valid table the invariant is kept and the id is no longer found |

## Left out

- HTTP routing, status codes (404, 400) and the JSON envelopes (`status`,
  `data`, `detail`) are not modelled; a handler's outcome is a `Response` value
  holding the task or the literal message.
- Request parsing by Pydantic (marj.py:11-24) is not modelled: inputs arrive
  typed. Create takes a `bool` flag defaulting to false, so a client-sent
  `null` flag, which the source would store as `None`, is not represented; the
  optional fields of a partial update are `Option` values, where None means
  "not supplied".
- Aliasing: the source answers the live record dictionary, so a later change to
  that record would show in an earlier response object. The model answers a
  copy of the record as it is at the time of the answer.
- The truthiness tests `if task:` / `if not existing_task:` are modelled as
  "a record was found"; a found record is a non-empty dictionary and therefore
  always true.
- Concurrency: the model is sequential; the unsynchronised "largest id plus
  one, then append" of concurrent creates is not represented.
- Python's `str.isspace()` is modelled by its fixed list of code points; it is
  not derived from the Unicode database.
