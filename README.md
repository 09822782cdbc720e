# Minecraft login tracker: a Dafny model

This project models the core of a small Minecraft server companion in three parts.

- **Log tailer** (`caputer_logins.py`). It follows the Spigot server log. It classifies each line as:
  - a server start;
  - a player login or logout;
  - a server shutdown;
  - anything else.

  Its handlers (`handle_login`, `handle_logout`, `handle_server_start`, `handle_stop`) reconcile a remote login table with the log through an HTTP session API. On shutdown they close every open session that `getLogins` lists.
- **Close-all script** (`logout_users.py`). This standalone script closes every open session that `getLogins` lists, as `handle_stop` does. It prints a "no action taken" message when none was open, and otherwise reports nothing about how many it closed.
- **Snapshot retention** (`delete_snapshots.py`). This job keeps the `MAX_AGE` newest EBS snapshots of a volume and deletes the rest.

The login table holds items keyed by `(Username, Version)`:

- the current session of a user lives under version `"v1"` (the *hot slot*);
- a closed session is copied under the version `str(floor(time()))` (the *archive key*).

Modules, in dependency order:

- `Wrappers`: `Option`.
- `PyText`: the Python `str` operations the parsers rely on, with their Python meaning:
  - `find`, which gives -1 when nothing is found;
  - `split(' ')`;
  - `s[:k]` with negative `k`;
  - `strip()` with Python's whitespace set;
  - `p in s`;
  - `str(n)`.
- `Classifier`: the first-match dispatch of `handle_log`, and the two name parsers.
- `ClassifierSamples`: the parsers on the sample lines of their docstrings.
- `Sessions`:
  - the `Session` item and Python truthiness of its time fields;
  - the status test `str(status)[0] == '2'`;
  - the response handlers `get_users` and `get_last_login`;
  - the table as a `Store` class whose methods change a map of items and a log of sent requests.
- `Reconciler`: each handler in two forms.
  - A pure effect function on the table state.
  - A method on `Store` proved to have exactly that effect.

  It also has the lemmas that relate the handlers: idempotence, frames, request counts and the shutdown loop.
- `Tailer`: the `track_logstream` loop as a method over a finite sequence of reads. It is proved against specification functions of the reads so far.
- `Snapshots`:
  - `get_snapshots` as a stable insertion sort, newest first, followed by Python's `[MAX_AGE:]`;
  - the counting loop of `main` over an EC2 client class.

Everything the program gets from outside comes in as a parameter:

- the service's HTTP replies, as write flags, `Ack` pairs and status/body pairs;
- the file contents on disk;
- the time;
- the replies of the EC2 delete calls.

`logout_users.py` repeats `get_users`, `get_last_login` and `logout_user` of the tailer word for word. The same members model both copies.

Two points of the loop in `track_logstream` (`caputer_logins.py:221-238`) that are easy to misread:

- A non-empty line does not reset `empty`. Only a check that finds no rotation sets it back to 0. Nine empty reads, one line and one more empty read therefore trigger a check (`Tailer.LineDoesNotResetCount`).
- The rotation check runs before `handle_log`, and `handle_log` is called on every read, empty ones included. When the check reopens the file, or fails to open it, the read that triggered it (always an empty read) is not handled.

## Model

| member | source | states |
|---|---|---|
| PyText.Find | caputer_logins.py:80 | `find` gives the index of the first occurrence, or -1 exactly when the character is absent |
| PyText.Split | caputer_logins.py:70 | `split(' ')` gives at least one piece, no piece holds the separator, and joining the pieces gives back the line |
| PyText.SplitJoin | caputer_logins.py:70 | splitting a join of separator-free pieces gives back exactly those pieces |
| PyText.SliceTo | caputer_logins.py:80 | `s[:k]` is a prefix of `s`: a `k` in `0..len(s)` keeps `k` characters, a `k` past the end keeps all of `s`, a negative `k` drops `-k` from the end, and one below `-len(s)` keeps nothing |
| PyText.Strip | caputer_logins.py:70 | `strip()` is the slice of `s` between a run of leading and a run of trailing whitespace, neither of its ends is whitespace, and a stripped string is left unchanged |
| PyText.TrimStart | caputer_logins.py:70 | the leading part removed is all whitespace and what is left does not start with whitespace |
| PyText.TrimEnd | caputer_logins.py:70 | the trailing part removed is all whitespace and what is left does not end with whitespace |
| PyText.TrimmedSlice | caputer_logins.py:70 | what is left after cutting leading and then trailing whitespace is a slice of the original between whitespace runs |
| PyText.Contains | caputer_logins.py:182-188 | Python's `p in s` for strings; its properties are stated by `PyText.ContainsBasics` and `PyText.ContainsExtended` |
| PyText.ContainsBasics | caputer_logins.py:182-188 | `'' in s` and `s in s` hold, and no longer string occurs in `s` |
| PyText.ContainsExtended | caputer_logins.py:182-189 | `p in s` stays true when text is added before or after `s` |
| PyText.NatToString | caputer_logins.py:49 | `str(n)` is a non-empty string of decimal digits with no leading zero |
| PyText.ParseNatToString | caputer_logins.py:126 | reading back `str(n)` gives `n` |
| PyText.NatToStringInjective | caputer_logins.py:126 | different numbers print differently |
| PyText.NatToStringHead | caputer_logins.py:49 | `str(n)[0]` is the most significant digit of `n` |
| Classifier.ClassifyFirstMatch | caputer_logins.py:182-189 | the handler a line reaches is the first test that matches, in the code's order, and each handler is reached exactly when its test matches and no earlier one does |
| Classifier.Classify | caputer_logins.py:182-189 | a line reaches a handler only when it contains that handler's markers and no earlier test matches; a login, logout or shutdown line is never a server-start line, and an ignored line matches none of the four tests |
| Classifier.EmptyLineIgnored | caputer_logins.py:222-238 | an empty read goes to `handle_log` and no handler takes it |
| Classifier.Token | caputer_logins.py:70 | `split(' ')[n]` exists exactly when `n` is below the number of pieces (IndexError otherwise), is the `n`-th piece, and holds no space |
| Classifier.FourthToken | caputer_logins.py:70 | on a line of space-free tokens, `split(' ')[3]` is the fourth token |
| Classifier.LoggedInUser | caputer_logins.py:73-80 | `get_logged_in_user` raises exactly when the line has fewer than four tokens, and a name it returns is stripped and holds neither a space nor a `[` |
| Classifier.LoggedOutUser | caputer_logins.py:65-70 | `get_logged_out_user` raises exactly when the line has fewer than four tokens, and a name it returns is stripped and holds no space |
| Classifier.LoggedInUserOfLine | caputer_logins.py:73-80 | on a login line the name is the fourth token up to its first `[` |
| Classifier.LoggedInUserWithoutBracket | caputer_logins.py:80 | a fourth token without `[` loses its last character, because `find` gives -1 and `[:-1]` drops one |
| Classifier.LoggedOutUserOfLine | caputer_logins.py:65-70 | on a logout line the name is the stripped fourth token |
| Classifier.ShortLineHasNoUser | caputer_logins.py:70 | a line with fewer than four tokens makes both parsers raise |
| ClassifierSamples.LoginSample | caputer_logins.py:76-78 | the documented login line is a login line and yields `wooster2011` |
| ClassifierSamples.LogoutSample | caputer_logins.py:68 | the documented logout line is a logout line and yields `wooster2011` |
| Sessions.SuccessIsLeadingTwo | caputer_logins.py:49 | the status test accepts exactly the statuses whose leading digit is 2 |
| Sessions.SuccessOnHttpCodes | caputer_logins.py:106 | on three-digit statuses the test is exactly the 2xx class |
| Sessions.IsSuccess | caputer_logins.py:49 | the status test `str(status)[0] == '2'`; what it accepts is stated by `Sessions.SuccessIsLeadingTwo` and `Sessions.SuccessOnHttpCodes` |
| Sessions.GetUsers | caputer_logins.py:27-35 | a `null` body or a non-2xx status gives `[]`, otherwise the listed items |
| Sessions.GetLastLogin | caputer_logins.py:83-92 | `get_last_login` gives `{}` exactly when the reply is `null` or non-2xx, raises IndexError exactly on an accepted empty list, and otherwise gives the head of what `get_users` would list |
| Sessions.Put | caputer_logins.py:118-123 | an upsert appends its request to the sent log, stores the item under its key exactly when the write succeeded, and leaves every other key alone |
| Sessions.LastLogin | caputer_logins.py:83-92 | the last login of a user is the user's hot-slot item when one exists, and `{}` otherwise |
| Sessions.Truthy | caputer_logins.py:138-150 | Python truthiness of a time field read with `.get`; `Sessions.TruthyCases` states which values it accepts |
| Sessions.TruthyCases | caputer_logins.py:138-150 | a missing time and 0 are falsy, and every other time is truthy |
| Sessions.LoginTimeOf | caputer_logins.py:138-151 | `last_login.get('LoginTime')`; what it reads is stated by `Sessions.GetOfLastLogin` |
| Sessions.LogoutTimeOf | caputer_logins.py:138-150 | `last_login.get('LogoutTime')`; what it reads is stated by `Sessions.GetOfLastLogin` |
| Sessions.GetOfLastLogin | caputer_logins.py:138-151 | `.get` on the empty dict `{}` gives no time, and on an item gives that item's own field |
| Sessions.Store.Upsert | caputer_logins.py:118-123 | the table after one upsert is `Put` of the table before |
| Sessions.Store.NotifyStarted | caputer_logins.py:157-158 | a `markStarted` call counts one notification and changes no item |
| Reconciler.ArchiveVersion | caputer_logins.py:126 | the archive key is a string of digits and never the hot slot `"v1"` |
| Reconciler.ArchiveVersionInjective | caputer_logins.py:126 | logouts at different seconds archive under different keys |
| Reconciler.LogoutEffect | caputer_logins.py:113-128 | `logout_user` first sends the close of `version`; a failed first write changes no item, a stored one puts the closed session under `version`, and no key but `version` and the archive key changes |
| Reconciler.LogoutRequests | caputer_logins.py:113-128 | a hot-slot logout sends the closed session under `"v1"`, then, only when that write succeeded, the same session under the archive key |
| Reconciler.LogoutRows | caputer_logins.py:113-128 | a logout touches only the hot slot and the archive key; the hot slot holds the closed session once the first write succeeded, the archive key once both did, and a failed first write changes nothing |
| Reconciler.LogoutEventEffect | caputer_logins.py:144-152 | `handle_logout` only appends requests, sends no notification, and leaves the items of every other user alone; what it does for an open and for a closed hot slot is stated by `Reconciler.LogoutOfOpenCloses` and `Reconciler.LogoutOfClosedIsNoOp` |
| Reconciler.LogoutOfClosedIsNoOp | caputer_logins.py:144-152 | a user whose hot slot has a truthy `LogoutTime` is not written |
| Reconciler.LogoutOfOpenCloses | caputer_logins.py:144-152 | a user whose hot slot has a falsy `LogoutTime`, or who has none, is logged out with that slot's `LoginTime`: the hot-slot close is sent, then the archive copy only after the close was stored; a stored close is in the hot slot, and a refused one leaves every item as it was |
| Reconciler.LogoutIdempotent | caputer_logins.py:144-152 | after a stored logout at a non-zero time, a second logout of the user changes nothing |
| Reconciler.NeedsNewLogin | caputer_logins.py:138 | the test `last.get('LogoutTime') or not last.get('LoginTime')`; what it decides is stated by `Reconciler.LoginCreatesIff` |
| Reconciler.EmptyLastLogin | caputer_logins.py:138-151 | when `get_last_login` gives `{}`, a login opens a new session and a logout goes ahead with no login time |
| Reconciler.LoginEventEffect | caputer_logins.py:131-141 | `handle_login` only appends requests, changes no key but the user's hot slot, and after a stored write at a non-zero time leaves the user with an open session |
| Reconciler.LoginCreatesIff | caputer_logins.py:131-141 | a login sends exactly the new open session when the last one is closed or has no login time, and changes nothing otherwise |
| Reconciler.LoginIdempotent | caputer_logins.py:131-141 | after a stored login at a non-zero time the user's session is open, so a second login changes nothing |
| Reconciler.LoginLogoutLogin | caputer_logins.py:131-152 | for a user whose last session is closed or missing, login, logout at a non-zero time and login again, all stored: the hot slot holds the new open session, the archive key holds the first session with its login and logout times, and every other item, the user's other versions included, is as before |
| Reconciler.CloseOne | caputer_logins.py:170-172 | one pass of the shutdown loop leaves the notifications and the sent requests alone, changes nothing for a closed session, and for an open one first sends its hot-slot close at the shutdown time |
| Reconciler.CloseAllEffect | caputer_logins.py:165-175 | the shutdown loop only appends requests, at least one and at most two per open listed session, and sends no notification |
| Reconciler.OpenCount | caputer_logins.py:168-171 | `count` is at most the number of listed sessions, and 0 exactly when every listed session has a truthy `LogoutTime` |
| Reconciler.ClosingRequests | caputer_logins.py:168-172 | the hot-slot closes a shutdown should send are one per listed session with a falsy `LogoutTime`: `count` of them |
| Reconciler.HotOnly | caputer_logins.py:126 | keeping the hot-slot requests keeps every `"v1"` request of the log and nothing else, and takes nothing the log does not hold |
| Reconciler.CloseAllRequests | caputer_logins.py:165-175 | the hot-slot requests the shutdown sends are the closes of the open listed sessions, in list order, whatever the service answers |
| Reconciler.NoRequestsIffAllClosed | caputer_logins.py:173-174 | the shutdown changes nothing exactly when `count` is 0 |
| Reconciler.CloseAllRowsOfClosedUsers | caputer_logins.py:169-172 | when every listed session is closed, no item changes |
| Reconciler.CloseAllFrame | caputer_logins.py:169-172 | a user whose listed sessions are all closed keeps every item |
| Reconciler.CloseOneKeepsClosed | caputer_logins.py:169-172 | a slot already closed at the shutdown time stays closed at that time through one more iteration |
| Reconciler.CloseAllClosesHot | caputer_logins.py:169-172 | every open listed session whose first write succeeded ends with its hot slot closed at the shutdown time |
| Reconciler.ShutdownExample | caputer_logins.py:165-175 | with two open users and one closed one, both open users are logged out, `count` is 2, and the closed user's hot slot is neither added, removed nor changed |
| Reconciler.StartStatusAsWritten | caputer_logins.py:155-162 | as written, the tailer crashes exactly when the `markStarted` reply is not 2xx |
| Reconciler.StartFailureCrashes | caputer_logins.py:159-161 | a 500 reply to `markStarted` crashes the tailer as written |
| Reconciler.StartStatus | caputer_logins.py:155-162 | as intended, a server-start line never stops the tailer |
| Reconciler.LineEffect | caputer_logins.py:178-189 | a line that crashes the tailer changes no item; which lines notify is stated by `Reconciler.LineNotifies` |
| Reconciler.LineNotifies | caputer_logins.py:178-189 | `handle_log` sends one `markStarted` notification for a server-start line and none for any other line |
| Reconciler.LineOnlyAppends | caputer_logins.py:178-189 | no line removes or rewrites a request already sent |
| Reconciler.IgnoredLineChangesNothing | caputer_logins.py:178-189 | a line no handler takes leaves the table alone and the tailer running |
| Reconciler.StartLineContinues | caputer_logins.py:182-183 | a server-start line sends one notification, changes no item, and the tailer goes on |
| Reconciler.LineStatus | caputer_logins.py:178-189 | only a shutdown line exits, and only a login or logout line without a fourth token crashes |
| Reconciler.LogoutUser | caputer_logins.py:113-128 | the method `logout_user` has exactly the effect `LogoutEffect` |
| Reconciler.LogNewLogin | caputer_logins.py:95-110 | `log_new_login` sends one upsert of an open hot-slot session starting now, with `LogoutTime` 0 |
| Reconciler.HandleLogin | caputer_logins.py:131-141 | the method `handle_login` has exactly the effect `LoginEventEffect` |
| Reconciler.HandleLogout | caputer_logins.py:144-152 | the method `handle_logout` has exactly the effect `LogoutEventEffect` |
| Reconciler.CloseAllStep | caputer_logins.py:169-172 | one more listed session adds one to `count` exactly when it is open, and adds its own shutdown pass after the earlier ones |
| Reconciler.CloseAllOpen | caputer_logins.py:168-172 | the shutdown loop returns `count`, the number of open listed sessions, and has exactly the effect `CloseAllEffect` |
| Reconciler.LogoutUsersMain | logout_users.py:69-78 | the script closes every open listed session, and reports "no action" exactly when `count` is 0 |
| Reconciler.HandleStop | caputer_logins.py:165-175 | `handle_stop` closes the open listed sessions and exits |
| Reconciler.MarkServerStarted | caputer_logins.py:155-162 | `handle_server_start` counts one notification and continues |
| Reconciler.HandleLog | caputer_logins.py:178-189 | the method `handle_log` leaves the table and the tailer status given by `LineEffect` |
| Tailer.EmptyReads | caputer_logins.py:222-224 | no more reads are empty than were made |
| Tailer.Content | caputer_logins.py:222-226 | `content` only grows: the text after `j` reads is a prefix of the text after any later read |
| Tailer.Counter | caputer_logins.py:219-237 | `empty` at the loop head is always below `MAX_EMPTY_BEFORE_CLOSE` |
| Tailer.NewLogfileCreated | caputer_logins.py:192-199 | the check raises exactly when `LOG_PATH` cannot be opened, and reports no new file exactly when the file's text equals `content` |
| Tailer.IsCheck | caputer_logins.py:223-228 | the read that brings `empty` to the threshold; `Tailer.CounterIsEmptyReadsMod` and `Tailer.CounterStep` state when that happens |
| Tailer.Rotates | caputer_logins.py:227-231 | the check finds a new log file; `Tailer.RotatesIff` states when |
| Tailer.RotatesIff | caputer_logins.py:192-231 | the loop breaks to reopen exactly when a check can open the file and finds other text than `content` |
| Tailer.CounterIsEmptyReadsMod | caputer_logins.py:219-237 | `empty` is always the number of empty reads modulo `MAX_EMPTY_BEFORE_CLOSE` (10) at the loop head, and a check happens exactly on an empty read that brings the total to a multiple of 10 |
| Tailer.AllEmptyCount | caputer_logins.py:222-224 | on a run of empty reads every read counts |
| Tailer.LineDoesNotResetCount | caputer_logins.py:223-227 | a line between empty reads does not reset `empty`: nine empty reads, a line and one more empty read trigger a check |
| Tailer.IgnoredReadsChangeNothing | caputer_logins.py:222-238 | reads no handler takes leave the table alone and the tailer running |
| Tailer.QuietPrefix | caputer_logins.py:221-238 | for `handle_log` and any other line handler, a loop that reached read `i` did not reopen the file, fail to open it, or stop at any earlier read |
| Tailer.RunWithLast | caputer_logins.py:221-238 | the last read of a run that kept the loop going was handled, did not end the loop at a check, and kept the tailer going |
| Tailer.RunWithShorter | caputer_logins.py:221-238 | a run that kept the loop going did so at every earlier read too |
| Tailer.CounterStep | caputer_logins.py:223-237 | one read reaches the threshold exactly when it is a check, and then `empty` goes back to 0 |
| Tailer.QuietStep | caputer_logins.py:238 | handling read `i` of a quiet run gives the replayed table and status at `i` |
| Tailer.EndsReopened | caputer_logins.py:227-231 | a rotation ends the loop at the check, with the read not handled |
| Tailer.EndsOpenFailed | caputer_logins.py:196 | a check whose `open(LOG_PATH)` raises FileNotFoundError ends the tailer at that read, with the read not handled |
| Tailer.EndsStopped | caputer_logins.py:238 | a read that exits or crashes ends the loop after it has been handled |
| Tailer.EndsDrained | caputer_logins.py:221-238 | a run that reads every read without stopping ends with every read handled |
| Tailer.HandleRead | caputer_logins.py:238 | the method handling one read has the replayed effect and status |
| Tailer.TrackRead | caputer_logins.py:221-238 | one pass of the loop either leaves the state of the next read or ends the run the way `Ends` describes |
| Tailer.TrackLogstream | caputer_logins.py:202-240 | the loop ends exactly at the first rotation, failed open of the file at a check, exit or crash, with the table equal to the replay of the reads handled, `content` equal to the lines read, and `empty` at most 10 |
| Snapshots.Insert | delete_snapshots.py:20-23 | one insertion step of the sort adds exactly one item |
| Snapshots.InsertPermutes | delete_snapshots.py:20-23 | an insertion adds the snapshot and loses nothing |
| Snapshots.InsertSorted | delete_snapshots.py:20-23 | inserting into a newest-first sequence keeps it newest first |
| Snapshots.SortDescSorted | delete_snapshots.py:20-23 | `sorted(..., reverse=True)` gives the snapshots newest first |
| Snapshots.SortDescPermutes | delete_snapshots.py:20-23 | the sort is a permutation of the described snapshots |
| Snapshots.SortDesc | delete_snapshots.py:20-23 | the sort keeps the number of snapshots; its order, permutation and stability are the lemmas beside it |
| Snapshots.SortDescStable | delete_snapshots.py:20-23 | snapshots with equal start times keep their described order |
| Snapshots.DropPy | delete_snapshots.py:23 | `[k:]` is a suffix of length `max(0, n - k)` for `k >= 0`, and of the last `min(n, -k)` items for `k < 0` |
| Snapshots.Described | delete_snapshots.py:21 | `response.get("Snapshots", [])`; that a missing list selects nothing is stated by `Snapshots.GetSnapshots` |
| Snapshots.GetSnapshots | delete_snapshots.py:10-23 | a response without `Snapshots` selects nothing, and the selection has `max(0, n - MAX_AGE)` snapshots |
| Snapshots.Selection | delete_snapshots.py:20-23 | the selection is a sub-multiset of what was described, newest first, and no selected snapshot started later than any it keeps |
| Snapshots.Succeeded | delete_snapshots.py:44-48 | `deleted` never exceeds the number of attempts |
| Snapshots.SucceededBounds | delete_snapshots.py:44-48 | every attempt counts as deleted exactly when every call returned, and none when none did |
| Snapshots.Ec2.DeleteSnapshot | delete_snapshots.py:26-36 | one delete request for the snapshot's id; 1 when the call returned, 0 when it raised |
| Snapshots.DeleteOldSnapshots | delete_snapshots.py:39-50 | `total` is the number of selected snapshots, `deleted` the number of calls that returned, `deleted <= total`, and one delete is requested per selected snapshot, in order |
| Snapshots.FewSnapshotsSelectNothing | delete_snapshots.py:46-48 | with no more snapshots than `MAX_AGE` nothing is selected or deleted |
| Snapshots.DefaultRetention | delete_snapshots.py:6-23 | with `MAX_AGE` unset (14), all but the 14 newest snapshots are selected and exactly 14, or all when there are fewer, are kept |
| Snapshots.RetentionExample | delete_snapshots.py:20-23 | keeping one of three snapshots selects the two older ones newest first, and a tie keeps its described order |

## Left out

- HTTP and JSON transport: `requests.post`, `json.dumps`/`json.loads`, the API key header and the endpoint URLs. Service replies are parameters: a success flag per write, an `Ack` pair for the two writes of `logout_user`, and a status/body pair for `getLogins`.
- The service's error bodies. `log_new_login` and `logout_user` parse the body with `json.loads` after replacing `null` with `None` (`caputer_logins.py:110`, `128`). That parse raises on a body with a JSON `null` literal or one that is not JSON, and the exception ends the tailer; so does any exception `requests.post` raises, for example on a connection failure; the model leaves the parse out and goes on after every write, failed or not. The discarded return values of `log_new_login`, `logout_user`, `handle_server_start` and the handlers are not modelled, because no caller uses them.
- Sessions.LastLogin: inside the handlers, `get_last_login` is read as the user's hot-slot item in the table. The service's query is not part of this model. The reply itself (`{}`, IndexError on an empty list, the first item) is modelled separately by `Sessions.GetLastLogin`.
- Sessions.GetUsers: a body is either `null` or a list of items. A JSON body of another shape is not modelled.
- `print_log` and `print`: logging side effects only. Its two-argument misuse is the finding below.
- Time: the three `floor(time())` readings inside one `logout_user` call are one value `now`. Timestamps are integers, not floats.
- Reconciler.CloseAllEffect: every `logout_user` call of one shutdown loop uses the same `now` (so does `Reconciler.CloseAllOpen`). The code reads `time()` again in each call (`caputer_logins.py:122`, `126`, via `172`), so sessions closed in one shutdown may carry different seconds and archive keys.
- Reconciler.LineEffect: it uses the corrected `Reconciler.StartStatus`, so a server-start line with a non-2xx `markStarted` reply continues. As written, the code raises TypeError there (`caputer_logins.py:160`; see Findings). The rows of `Reconciler.LineStatus`, `Reconciler.StartLineContinues`, `Reconciler.MarkServerStarted`, `Reconciler.HandleLog` and `Tailer.TrackLogstream` therefore describe the corrected program.
- `sleep`, the `FileNotFoundError` retry of the first open and the final recursive reopen of `track_logstream`. The retry waits and opens again, and the reopen runs the same loop again on a fresh file. A failed open inside `new_logfile_created` is modelled (`Tailer.EndsOpenFailed`).
- `main` of the tailer (modification-time polling) and `sys.exit(1)`: process supervision outside the loop.
- Tailer.TrackLogstream: the file is a finite sequence of reads. The model's `Drained` outcome covers a run that ends while the loop would go on waiting.
- Reconciler.CloseAllEffect: the service's replies during a shutdown are a function of the list position (`acks(i)`), not a stream of replies.
- boto3 calls, `lambda_handler` and its response and header dictionary: foreign AWS calls. `VOLUME_ID` selects which snapshots are described, so it is part of the described list.
- Environment reads: `MAX_AGE` is a parameter. Its default 14 is `DEFAULT_MAX_AGE` (`Snapshots.DefaultRetention`), but a value that `int()` cannot parse is not modelled. `StartTime.timestamp()` is an integer start time.
- The snapshot sort's exceptions, for example a snapshot without `StartTime`, are not modelled.

## Findings

| source | as written | input that shows it | evidently intended | confidence | as-written member | corrected member |
|---|---|---|---|---|---|---|
| caputer_logins.py:159-161 | `print_log` takes one argument but is called with two when `markStarted` fails, so a TypeError ends the tailer | a server-start line whose `markStarted` reply has status 500 | log the failure and go on tailing | high; not executed | Reconciler.StartFailureCrashes | Reconciler.StartStatus |
