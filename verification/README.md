# Macro relay: a Dafny model

This project models the Python program that relays keyboard macros between two machines.

On the initiating machine (the master, or client), a listener records when each key was last pressed. A polling loop checks every hotkey of the macro table. A hotkey fires when all of its keys were pressed within the last half second. Its action strings are then turned into JSON messages and sent. The strings are "EXIT:", "TEXT:<text>" and "KEYS:<k1>+<k2>…".

The responding machine (the slave, or server) first authenticates the peer with a challenge and response. It sends a random six-digit challenge and expects the SHA-256 digest of the challenge followed by a shared secret. It then performs every message it receives by injecting text, key combinations or mouse moves. A table message makes it rewrite its stored macro table.

Around this sit several pieces:

- **The macro table.** `MacroManager.MACROS` and the `MACROS` dict of the single-file version are modelled as an insertion-ordered dict.
- **The macro tree.** The Treeview of `(macro, actions)` rows is modelled as a row sequence with item ids and an optional selection.
- **Transaction routing.** The window routes transactions from the macro store onto the tree.
- **The settings cache.** A cache sits in front of a settings table and is merged with defaults once.
- **The list box.** In the single-file version, the list box shows one line per macro. The add, edit and delete buttons read a hotkey back from a line and update the `macros` table of the SQLite store together with `MACROS`.

## How the modules are arranged

| file | module | models |
|---|---|---|
| wrappers.dfy | Wrappers | `None` or a value |
| seqs.dfy | Seqs | small sequence facts used by the proofs |
| pydict.dfy | PyDict | a Python dict: a map and its insertion order |
| strings.dfy | Strings | `strip`, `split`, `join`, `find`, `str(n)` and `int(s)` on strings |
| messages.dfy | Messages | the JSON messages, the injected actions, and the action-string encoder |
| channel.dfy | Channel | a connected socket: the chunks `recv` returns and what `sendall` sent |
| settings.dfy | Settings | the secret, the status strings, and SHA-256 and JSON as given functions |
| handshake.dfy | Handshake | challenge generation, hashing, validation, and both sides of the handshake |
| hotkey.dfy | Hotkey | `key_press_times`, `keys_pressed_recently`, and one polling pass over the table |
| macro_manager.dfy | MacroTable | `macro_manager.py` |
| socket_client.dfy | SocketClient | `socket_client.py` |
| socket_server.dfy | SocketServer | `socket_server.py` |
| newmain.dfy | NewMain | the responder and the `App` routing of `newmain.py` |
| macro_tree.dfy | MacroTree | `macro_tree.py` |
| constants.dfy | Constants | `constants_manager.py` |
| legacy_table.dfy | LegacyTable | the values of `main.py`: its table, list-box lines and line parsing |
| legacy_main.dfy | LegacyMain | the master, the slave and the window of `main.py` |

**Modelling choices:**

- **Timestamps** are integer milliseconds. The half-second window is `Hotkey.WINDOW = 500`.
- **Infinite loops.** Each `while True` loop is modelled over a finite input:
  - A responder's loop runs over the chunks still to be received. An empty chunk means the peer closed.
  - An initiator's loop runs over a finite list of rounds. Each round holds the key presses the listener saw, then one clock reading per hotkey checked.
- **SHA-256** is a function parameter. `json.dumps`/`json.loads` are a codec parameter, and the proofs rely only on this: decoding undoes encoding, and no encoded message is empty.
- **`random.randint(100000, 999999)`** is a nondeterministic choice from the range.
- **The Treeview** is a sequence of rows with distinct item ids, plus an optional selected id.
- **The SQLite tables** are ordered dicts keyed by their primary key.

**Differences between the program's versions, modelled as written:**

- **Not in the source.** `create_db_sync_payload_and_send` and the store's transaction log are not defined anywhere in the program. `check_and_send_db_transactions` is modelled only as handing a batch to an outbox and clearing the log; nothing replays the batches on the other side.
- **Failed authentication in `socket_server.py`.** The draft server sends no status at all when authentication fails. `newmain.py` sends `AUTH_FAILED`. Each is modelled as written.
- **Settings constants.** The single-file program does not read its constants from the settings store. It has its own literals: a different secret, host and `MACROS` table (main.py:17-29). These are modelled as written.

## Model

| member | source | states |
|---|---|---|
| MacroTable.DefaultMacros | macro_manager.py:6-12 | the initial table is a well-formed dict of five hotkeys, each with a non-empty action list |
| MacroTable.DefaultMacrosContents | macro_manager.py:6-12 | the table has exactly five hotkeys; the first maps to `KEYS:right` then `TEXT:Hello` |
| MacroTable.DeleteIdempotent | macro_manager.py:36-40 | deleting twice equals deleting once; deleting an absent hotkey changes nothing |
| MacroTable.EditRenames | macro_manager.py:28-33 | after an edit the new hotkey maps to `[action]`, the old hotkey is gone unless it is the new one, every other entry is unchanged |
| MacroTable.MacroManager.constructor | macro_manager.py:6-12 | the class starts with the literal table |
| MacroTable.MacroManager.GetMacros | macro_manager.py:20-21 | returns the table itself, well formed |
| MacroTable.MacroManager.AddMacro | macro_manager.py:24-25 | the hotkey maps to the one-action list, overwriting; no other entry changes; a new hotkey goes last in order |
| MacroTable.MacroManager.EditMacro | macro_manager.py:28-33 | an absent old hotkey leaves the table unchanged; otherwise the old hotkey is removed and the new one set to `[action]` |
| MacroTable.MacroManager.DeleteMacro | macro_manager.py:36-40 | removes exactly the hotkey when present; an absent hotkey leaves the table unchanged |
| MacroTable.MacroManager.AddActions | macro_manager.py:43-45 | the hotkey maps to the given list; no other entry changes |
| Hotkey.RequiredKeys | socket_client.py:86 | `set(hotkey.split('+'))` is never empty, holds exactly the split fields, none containing '+' |
| Hotkey.KeyLedger.constructor | socket_client.py:25 | the ledger starts empty |
| Hotkey.KeyLedger.OnKeyPress | socket_client.py:28-38 | the pressed key's entry becomes the current time; every other entry is unchanged |
| Hotkey.KeyLedger.RecordPresses | main.py:66-69 | a batch of presses leaves the ledger as pressing each in turn |
| Hotkey.KeyLedger.Forget | socket_client.py:88-89 | popping the keys removes exactly them and keeps every other entry |
| Hotkey.PressAllStamps | socket_client.py:28-38 | pressing names at time t stamps each with t and leaves every other entry as it was |
| Hotkey.DebounceWindow | socket_client.py:41-42 | a hotkey whose keys were all pressed at t counts as pressed recently exactly while now <= t + 500 |
| Hotkey.PollCycleSnoc | socket_client.py:78-83 | a pass over one more entry is the shorter pass followed by one check of that entry |
| Hotkey.PollCyclePrefix | socket_client.py:78-83 | the pass over the first i + 1 entries is the pass over the first i, then entry i |
| Hotkey.PollCycleForgets | socket_client.py:85-92 | a pass only removes ledger entries, never changes one, and keeps every key no hotkey of the table uses |
| Hotkey.QuietCycle | socket_client.py:85-92 | when no hotkey is pressed recently a pass fires nothing and leaves the ledger unchanged |
| Hotkey.NoRefireWithoutPress | socket_client.py:85-92 | after a pass, no hotkey of the table is pressed recently at a later reading past the first window |
| Hotkey.SecondCycleSilent | socket_client.py:85-92 | re-fire suppression: a second pass without new presses, at later readings, fires nothing |
| Messages.EncodeCommand | socket_client.py:94-108 | a message exactly for the three prefixes; exit exactly for "EXIT:"; text is stripped; keys are non-empty fields without '+' |
| Messages.EncodeCommandByPrefix | socket_client.py:98-105 | for any rest s: "EXIT:" + s gives exit, "TEXT:" + s gives the text strip(s), "KEYS:" + s gives the keys strip(s).split('+') |
| Messages.PrefixesExclusive | socket_client.py:98-105 | at most one of the three prefixes matches an action string, so checking them in the order EXIT, TEXT, KEYS picks the only match |
| Messages.EncodeCommandRoundTrip | socket_client.py:98-105 | every message of the encoder's form is produced by its action string |
| Messages.EncodeCommandCanonical | socket_client.py:98-105 | whatever the encoder produces is in its form, so re-encoding its action string gives the same message |
| Messages.EncodeAllAppend | socket_client.py:78-81 | the messages of two action lists are those of the first, then those of the second |
| Messages.DumpsAll | socket_client.py:121-124 | one text per message |
| Messages.DumpsAllAppend | socket_client.py:121-124 | the texts of two message lists are those of the first, then those of the second |
| Messages.WireOne | socket_client.py:94-112 | one action string sends its encoded message, or nothing when it has no valid prefix |
| Messages.WireAppend | socket_client.py:80-81 | the texts sent for two action lists are those of the first, then those of the second |
| Messages.WirePrefix | socket_client.py:80-81 | the texts for the first j + 1 actions are those for the first j, then those for action j |
| Channel.Connection.constructor | newmain.py:50 | a connection starts with its incoming chunks and nothing sent |
| Channel.Connection.Recv | newmain.py:78 | returns the next chunk, or "" once the peer has closed, and consumes it |
| Channel.Connection.SendAll | newmain.py:62 | appends exactly the text to what was sent |
| Channel.Head | newmain.py:78-79 | the next chunk, "" for a closed peer |
| Channel.Tail | newmain.py:78 | one chunk fewer, none once closed |
| Strings.Strip | socket_client.py:101 | the result is the input with only its leading and trailing white space removed, and has none at either end |
| Strings.StripShape | socket_client.py:101 | the left trim removes only white space before the result, the right trim only white space after it |
| Strings.StripFixpoint | socket_client.py:101 | `strip()` leaves a string unchanged exactly when no white space stands at either end |
| Strings.Split | main.py:63 | `split(c)` gives at least one field, none containing c |
| Strings.SplitCount | newmain.py:128 | `split(c)` gives one field more than the string has separators |
| Strings.JoinSplit | main.py:63 | joining the fields of a split gives the string back |
| Strings.SplitJoin | main.py:200 | splitting a join gives the fields back when none holds the separator |
| Strings.Decimal | newmain.py:86 | `str(n)` is a non-empty digit string without a leading zero |
| Strings.ParseDecimalRoundTrip | newmain.py:86 | reading back `str(n)` gives n |
| Handshake.ChallengeOfNumber | newmain.py:85-86 | every number in [100000, 999999] prints as a six-digit challenge that reads back as that number |
| Handshake.GenerateChallenge | newmain.py:85-86 | returns the decimal form of some number in [100000, 999999] |
| Handshake.SameSecretAccepted | newmain.py:89-90 | the digest computed with the same secret always validates |
| Handshake.OtherSecretRejected | socket_server.py:20-24 | a digest computed with another secret is rejected, with SHA-256 taken as injective |
| Handshake.Challenge | socket_server.py:72-76 | sends exactly one challenge in the range, reads one response, succeeds exactly when it validates against that same challenge |
| Handshake.Respond | socket_client.py:114-119 | sends the digest of the received challenge, reads one status, succeeds exactly when it is the success string |
| SocketClient.SendCommand | socket_client.py:94-112 | sends the one message of a valid action string and nothing for an invalid one |
| SocketClient.SendCommands | socket_client.py:80-81 | sends one message per valid action string, in list order |
| SocketClient.RunRoundsSnoc | socket_client.py:76-83 | running one more round is the earlier rounds followed by that round |
| SocketClient.RunRoundsPrefix | socket_client.py:76-83 | the first n + 1 rounds are the first n, then round n |
| SocketClient.IdleRoundsSilent | socket_client.py:76-92 | rounds without key presses after a pass, at later readings past the window, send nothing |
| SocketClient.Client.constructor | socket_client.py:50-59 | the client holds its connection, the shared ledger, the table and the settings |
| SocketClient.Client.ShouldExecuteMacro | socket_client.py:85-92 | fires exactly when all keys were pressed recently; then it removes those keys, otherwise the ledger is unchanged |
| SocketClient.Client.CheckEntry | socket_client.py:78-83 | one hotkey is checked, and when it fires its action strings are sent in order |
| SocketClient.Client.PollMacros | socket_client.py:78-83 | one pass over a copy of the table sends exactly what the specified pass fires and leaves its ledger |
| SocketClient.Client.PlayRound | socket_client.py:76-83 | records the round's presses, then makes one pass |
| SocketClient.Client.MainClientLoop | socket_client.py:76-83 | over any list of rounds, sends exactly the texts of the commands the specified rounds fire, in order |
| SocketClient.Client.StartClientServices | socket_client.py:61-74 | the polling loop runs exactly when the status is the success string; a failed handshake sends only the digest |
| SocketServer.Route | socket_server.py:49-59 | a missing "action" or "hotkey" raises; add, edit and delete call the store with the hotkey and the actions ("" by default); any other action calls nothing |
| SocketServer.RouteRoundTrip | socket_server.py:49-59 | every store call is reached by its request |
| SocketServer.DrainDecodes | socket_server.py:78-84 | whatever a sound encoder sent is decoded, message for message, up to the close |
| SocketServer.Server.constructor | socket_server.py:27-32 | no store call has been made |
| SocketServer.Server.HandleData | socket_server.py:49-59 | raises exactly for a missing key; otherwise appends exactly the routed store call, or nothing |
| SocketServer.Server.MainServerLoop | socket_server.py:78-84 | receives until the first empty chunk or undecodable text; the result is the specified drain of the incoming chunks |
| SocketServer.Server.HandleConnection | socket_server.py:65-70 | one challenge; on success the status and then the loop; on failure no status and nothing received after the response |
| NewMain.ProcessReceivedPayload | newmain.py:93-112 | exit closes; SYNC_MACROS and unknown types only log; text types its text, keys presses its keys, mouse_move moves to (x, y), mouse_move_rel moves by (dx, dy) |
| NewMain.MainServerLoop | newmain.py:76-82 | receives until the first empty chunk; the result is the specified session over the incoming chunks |
| NewMain.HandleServerConnection | newmain.py:56-66 | sends a challenge, then the success status and enters the loop exactly when the response validates, the failure status otherwise |
| NewMain.ServeStream | newmain.py:76-82 | messages without exit are all read and performed in arrival order, and the rest is served next |
| NewMain.ServeStopsAtExit | newmain.py:100-102 | an exit message ends the session: what came before is performed, nothing after is read |
| NewMain.EncodeAllWithoutExit | socket_client.py:98-99 | action strings without "EXIT:" produce no exit message |
| NewMain.ServeCommands | newmain.py:76-112 | the responder performs every command the client sends for an action list without "EXIT:", then sees the close |
| NewMain.CreateActionsFromString | newmain.py:127-129 | one action per comma-separated field (comma count + 1); action i is field i stripped |
| NewMain.ServeTextCommand | newmain.py:103-104 | a "TEXT:" action the client sends is typed by the responder, stripped, and nothing else is performed |
| NewMain.ServeKeysCommand | newmain.py:105-106 | a "KEYS:" action the client sends is pressed by the responder as the stripped '+'-separated combination |
| NewMain.CreateActionsRoundTrip | newmain.py:127-129 | joining stripped, comma-free actions with ',' and parsing gives them back |
| NewMain.AppliedUnique | newmain.py:194-199 | routing keeps every macro shown once; after an add the macro is shown; after a delete it is not |
| NewMain.FlushConserves | newmain.py:278-284 | flushing loses and duplicates no transaction |
| NewMain.FlushIdempotent | newmain.py:278-284 | a flush right after a flush hands nothing over |
| NewMain.App.constructor | newmain.py:135-141 | the app holds the tree and the log, and has sent nothing |
| NewMain.App.Update | newmain.py:186-199 | add inserts, edit edits by the old hotkey, delete deletes, anything else does nothing: rows, next item id and selection are stated for each case; the tree stays well formed |
| NewMain.App.CheckAndSendDbTransactions | newmain.py:278-284 | a non-empty log is handed over and then cleared; an empty or missing log is left as it is |
| MacroTree.FirstMatch | macro_tree.py:77-81 | the position of the first row showing the macro, or None exactly when no row shows it |
| MacroTree.PositionOf | macro_tree.py:53-55 | the position of the row with the item id, or None exactly when there is none |
| MacroTree.InsertedUnique | macro_tree.py:44-50 | insertion keeps every macro shown once, and afterwards the macro is shown |
| MacroTree.InsertThenDelete | macro_tree.py:44-50 | deleting a macro just inserted gives the rows back |
| MacroTree.DeletedGone | macro_tree.py:91-97 | on unique rows, a deleted macro is no longer shown and the rows stay unique |
| MacroTree.DeletedKeepsOthers | macro_tree.py:91-97 | every other macro is shown after a delete exactly when it was shown before |
| MacroTree.RemovedAt | macro_tree.py:95 | the rows after removing position i, position by position |
| MacroTree.EditedInPlace | macro_tree.py:83-89 | editing keeps the number and order of rows; only the first matching row changes, to the new values |
| MacroTree.EditedUnique | macro_tree.py:83-89 | editing keeps macros unique when the new macro is not shown on another row |
| MacroTree.EditToSelf | macro_tree.py:83-89 | editing a macro to itself and its own actions changes nothing |
| MacroTree.FirstMatchAt | macro_tree.py:77-81 | a row showing the macro with none before it is the first match |
| MacroTree.PositionAppend | macro_tree.py:50 | a selected row is still found after a row is appended |
| MacroTree.PositionSameIds | macro_tree.py:87 | rows with the same ids find a selected id alike |
| MacroTree.PositionRemoved | macro_tree.py:95 | a row other than the removed one is still found |
| MacroTree.MacroActionTree.constructor | macro_tree.py:8-42 | a new tree has no rows and no selection |
| MacroTree.MacroActionTree.FindItemByMacro | macro_tree.py:77-81 | the loop returns the first row showing the macro, or None |
| MacroTree.MacroActionTree.Insert | macro_tree.py:44-50 | a macro already shown is skipped; otherwise a row with a fresh id goes at the end and the next id advances; the selection is kept |
| MacroTree.MacroActionTree.EditByMacro | macro_tree.py:83-89 | the first matching row gets the new values in place; no match changes nothing |
| MacroTree.MacroActionTree.DeleteByMacro | macro_tree.py:91-97 | the first matching row is removed and the rest keep their order; the selection drops it |
| MacroTree.MacroActionTree.DeleteAt | macro_tree.py:95 | removes exactly the row at the position, deselecting it |
| MacroTree.MacroActionTree.GetAll | macro_tree.py:62-64 | the (macro, actions) pairs in row order |
| MacroTree.MacroActionTree.GetSelected | macro_tree.py:66-70 | the selected row's values, or None for `(None, None)` exactly when nothing is selected |
| MacroTree.MacroActionTree.ClearItems | macro_tree.py:72-75 | afterwards there are no rows and no selection |
| MacroTree.MacroActionTree.EditSelected | macro_tree.py:52-55 | the selected row gets the new values in place; without a selection nothing changes |
| MacroTree.MacroActionTree.DeleteSelected | macro_tree.py:57-60 | the selected row is removed; without a selection nothing changes |
| Constants.DefaultConstants | constants_manager.py:55-63 | seven defaults with distinct names |
| Constants.MergeDefaultsSpec | constants_manager.py:96-106 | loading keeps every stored value, adds every default name, and adds nothing else |
| Constants.MergeDefaultsValue | constants_manager.py:97-102 | a default not stored before gets exactly its default value |
| Constants.MergeDefaultsIdempotent | constants_manager.py:96-102 | merging the defaults again changes nothing |
| Constants.GetAfterSet | constants_manager.py:129-139 | a `get` right after `set` returns the value set |
| Constants.GetTwice | constants_manager.py:112-125 | a `get` that filled the cache is answered from it next time, with the same value |
| Constants.ConstantsManager.constructor | constants_manager.py:65-77 | the first instance merges the defaults into the table and caches all of it |
| Constants.ConstantsManager.LoadConstantsIntoCache | constants_manager.py:84-110 | once only: stored values win, missing defaults are added to the table, and the cache becomes the whole table |
| Constants.ConstantsManager.Get | constants_manager.py:112-127 | a cached value that is not None, else the table's value cached on the way, else None |
| Constants.ConstantsManager.Set | constants_manager.py:129-142 | the table row and the cache entry both become the value |
| Constants.Registry.constructor | constants_manager.py:52 | no instance yet |
| Constants.Registry.Instance | constants_manager.py:65-77 | the first call creates and loads the instance; later calls return the same one |
| Constants.CreatedTwice | constants_manager.py:65-77 | two creations give one instance, whatever table the second names |
| LegacyTable.InitialMacros | main.py:23-29 | five hotkeys, each with one action; every hotkey is "ctrl_l+alt_l+" and one character; the last ends in ',' |
| LegacyTable.Upsert | main.py:314 | `INSERT OR REPLACE` maps the hotkey to the action and keeps the table well formed |
| LegacyTable.UpsertOrder | main.py:314 | the replaced row moves last; the others keep their order |
| LegacyTable.HotkeysMembers | main.py:200 | a hotkey is among the rows' hotkeys exactly when some row carries it |
| LegacyTable.ItemsHotkeys | main.py:200 | the items of a dict carry its keys, each once |
| LegacyTable.LoadRowsValid | main.py:59-63 | loading keeps `MACROS` well formed |
| LegacyTable.LoadRowsKeys | main.py:59-63 | the hotkeys after loading are the old ones and the rows' ones |
| LegacyTable.LoadRowsKeeps | main.py:59-63 | a hotkey no row carries keeps its list |
| LegacyTable.LoadRowsValues | main.py:62-63 | every stored hotkey maps to its action text split at ',' |
| LegacyTable.LoadTable | main.py:59-63 | loading a whole table: its hotkeys take their split actions, the others keep theirs, nothing else appears |
| LegacyTable.LoadedActionsPresent | main.py:59-63 | every hotkey still has an action after loading |
| LegacyTable.SyncRows | main.py:196-200 | writing rows keeps the table well formed |
| LegacyTable.SyncRowsKeys | main.py:196-200 | the table afterwards holds its old hotkeys and the received ones |
| LegacyTable.SyncRowsValues | main.py:199-200 | every received hotkey holds its actions joined with ',' |
| LegacyTable.SyncThenLoad | main.py:59-63 | a table written by `sync_macros_to_db` and read back gives every received action list back, when no action holds a comma |
| LegacyTable.LabelledWithoutComma | main.py:310 | a labelled part of a list-box line holds no ", " |
| LegacyTable.LabelledValue | main.py:336-337 | splitting a labelled part at ": " gives the label and the value |
| LegacyTable.EditParseRoundTrip | main.py:335-337 | the edit button reads back the hotkey and first action of every line whose parts hold neither ", " nor ": " |
| LegacyTable.EntryAfterHotkey | main.py:310 | the shape of a line whose hotkey ends with the text after the last comma |
| LegacyTable.DeleteParseField | main.py:370 | the delete parse finds a comma-free, colon-free, stripped hotkey |
| LegacyTable.DeleteParsePlain | main.py:370 | the delete parse reads back a hotkey without ',' and ':' and without surrounding spaces |
| LegacyTable.DeleteParseDropsComma | main.py:370 | the delete parse drops the comma that ends a hotkey |
| LegacyTable.DeleteParseTruncates | main.py:370 | the line of the initial hotkey "ctrl_l+alt_l+," is read back as "ctrl_l+alt_l+", which the table does not hold |
| LegacyTable.DeleteParseRoundTrip | main.py:335-336 | the corrected delete parse reads back the hotkey of every listable line |
| LegacyTable.DeleteParseSpaceFree | main.py:335-336 | the corrected parse reads back every hotkey whose line parts hold no space |
| LegacyTable.DeleteParseKeepsComma | main.py:335-336 | the corrected parse reads "ctrl_l+alt_l+," back whole |
| LegacyTable.LacksSecondChar | main.py:335 | a string without the separator's second character does not contain the separator |
| LegacyTable.EditAsWrittenLosesRow | main.py:345-351 | renaming onto another stored hotkey with the plain `INSERT` raises after the delete, so the edited macro stays in `MACROS` without its row |
| LegacyTable.EditAgrees | main.py:345-351 | with `INSERT OR REPLACE`, the edit's rows are the old ones without the old hotkey, plus the new one, and they agree with `MACROS` |
| LegacyTable.AddAgrees | main.py:312-315 | `update_db_and_dict` keeps the table's hotkeys and `MACROS`'s hotkeys equal |
| LegacyTable.DeleteAgrees | main.py:373-378 | deleting the hotkey from both keeps them equal |
| LegacyMain.Dispatch | main.py:177-193 | exit stops, a table message stores its data, a missing "type" raises, another unknown type is skipped, and the rest perform what `newmain.py` performs |
| LegacyMain.SlaveServe | main.py:170-193 | the loop keeps the table well formed |
| LegacyMain.SlaveServeStream | main.py:170-193 | messages that neither stop nor store are performed in arrival order, and the table is unchanged |
| LegacyMain.SlaveStopsAtExit | main.py:181-183 | an exit message ends the loop: what came before is performed, nothing after is read |
| LegacyMain.SlaveStoresTable | main.py:178-180 | a table message replaces the stored table by the received one, whatever it held |
| LegacyMain.SyncedTable | main.py:196-200 | after `sync_macros_to_db` the table holds exactly the received hotkeys, each with its actions joined by ',' |
| LegacyMain.EncodeAllKinds | main.py:76-87 | action strings produce only exit, text and keys messages |
| LegacyMain.SlaveFollowsMaster | main.py:113-126 | the master's table message and commands leave the slave with the master's hotkeys and every command performed |
| LegacyMain.ListingParses | main.py:307-310 | every list-box line is read back as its macro's hotkey and first action, by the edit and the corrected delete parse |
| LegacyMain.RenameKeeps | main.py:345-351 | the edit keeps every action list non-empty and keeps the table and `MACROS` in agreement |
| LegacyMain.RemoveKeeps | main.py:373-378 | deleting keeps both well formed, deleting an absent hotkey changes nothing, and agreement is kept |
| LegacyMain.PollRounds | main.py:115-133 | sends the table first when the update flag was set, then the commands the rounds fire; the flag is cleared once a round runs |
| LegacyMain.LegacyPeer.constructor | main.py:205-254 | the window starts with the table, an empty ledger, the flag down and an empty list box |
| LegacyMain.LegacyPeer.LoadMacrosFromDb | main.py:59-63 | `MACROS` becomes the specified load of the stored rows, in table order |
| LegacyMain.LegacyPeer.LoadMacrosIntoListbox | main.py:307-310 | the list box shows one line per macro, in table order, and nothing else changes |
| LegacyMain.LegacyPeer.Start | main.py:388-393 | loads the stored rows, then draws the list box |
| LegacyMain.LegacyPeer.SyncMacrosToDb | main.py:196-200 | the table becomes exactly the received rows with joined actions |
| LegacyMain.LegacyPeer.ReceiveLoop | main.py:170-193 | the loop's performed actions, table, end and unread chunks are the specified slave session |
| LegacyMain.LegacyPeer.ListenForData | main.py:144-193 | one challenge, the success status and the loop exactly when the response validates, otherwise the failure status and no change |
| LegacyMain.LegacyPeer.SyncMacros | main.py:136-139 | sends exactly one table message carrying `MACROS` |
| LegacyMain.LegacyPeer.SendDataToSlave | main.py:98-133 | answers the challenge; only on the success string sends the table, then the polling loop's texts |
| LegacyMain.LegacyPeer.MasterSession | main.py:113-133 | the table, then the table again when flagged, then the fired commands; the ledger is the specified one |
| LegacyMain.LegacyPeer.UpdateDbAndDict | main.py:312-318 | writes the row, maps the hotkey to `[action]`, raises the flag, redraws, and keeps table and `MACROS` in agreement |
| LegacyMain.LegacyPeer.AddMacro | main.py:320-324 | acts only when both answers are non-empty; otherwise nothing changes |
| LegacyMain.LegacyPeer.EditMacro | main.py:326-354 | the outcome for no selection, an unparsable line, a cancelled dialog, an absent hotkey and success; on a list box drawn from the table it always renames the selected macro |
| LegacyMain.LegacyPeer.Rename | main.py:345-354 | rewrites the row, renames the macro in `MACROS`, raises the flag and redraws |
| LegacyMain.LegacyPeer.DeleteMacro | main.py:356-385 | the outcome for no selection, declined, unparsable, absent and deleted; on a list box drawn from the table it deletes exactly the selected macro |

## Left out

- Sockets are modelled as the chunks `recv` returns and the texts `sendall` sent. Framing is not modelled: the model assumes one message per `recv`. `BUFFER_SIZE` truncation and byte encoding are not modelled either.
- The JSON text encoding and SHA-256 are given functions. The model does not compute a digest or a JSON text.
- Hotkey.PressedRecently: `keys_pressed_recently` reads `time.time()` once per key inside `all(...)` (socket_client.py:42, main.py:73); the model takes one clock reading per hotkey check, so the readings within one check are taken as equal.
- NewMain.Transaction: `update` reads all four fields with `.get` (newmain.py:187-190), so each may be `None`; the model lets only the operation be missing. A transaction whose hotkey, actions or old hotkey is missing, such as an edit without `old_hotkey`, is not modelled.
- MacroTable.MacroManager.GetMacros returns the table as a value. Python returns the class dict itself, an alias through which callers could change `MACROS`; that aliasing is not modelled.
- Threads, the pynput listener thread, `Thread._stop`, and the `start`/`stop`/`start_master`/`start_slave`/`start_client`/`start_server` buttons are left out. Concurrency cannot be stated in this sequential model, so the listener's presses are recorded between polling passes.
- LegacyMain.PollRounds: `is_macros_updated` is read as a flag that nothing else sets while the loop runs, because concurrent button presses are not modelled.
- `time.sleep(0.5)` after a fired hotkey is left out; the clock readings of a round carry the passage of time.
- Tkinter layout, dialogs and message boxes become parameters: the dialog answers, the confirmation and the selected line. Widgets are not modelled beyond the list-box lines and the Treeview rows.
- pyautogui calls are left out. The model records the requested action (`Injection`), not its effect on the desktop.
- Logging is left out (all `logger` and `print` calls).
- `initialize_db` and `get_db_connection` are left out: the `macros` table is assumed to exist. Rows come back in insertion order.
- The `INSERT OR REPLACE` in `sync_macros` (main.py:137) is left out. It passes a list of pairs as the parameters of one row, so the SQLite binding fails inside the handler of `execute_db_query`. Only the message send is modelled.
- The macro store behind `newmain.py` and `socket_server.py` (`db_manager`) is an outside collaborator. `Server.handle_data` records the store call it makes. `App` holds the transaction log as an optional list.
- `App.check_initial_db_for_macros`, `App.add_macro`, `App.edit_macro` and `App.delete_macro` of `newmain.py` are left out, because they act through the store and dialogs. The tree, table and transaction operations they call are modelled.
- `handle_mouse_move` and `handle_mouse_move_relative` read their fields from the message. The model carries those fields in the message, so a missing field is not modelled.
- `socket_server.py` imports a name that `constants_manager.py` does not define. Its module wiring is not modelled, only its functions and its `Server` class. `Server.process_received_payload` only decodes and logs, and is modelled as the decode in `MainServerLoop`.
- Constants.ConstantsManager.constructor: `__new__`'s handling of a missing `database_url` and the `init_once` attributes are left out. The singleton is modelled by `Registry`.
- Constants: values are kept decoded. `json.dumps`/`json.loads` of the stored text are not modelled.
- LegacyMain.LegacyPeer.constructor takes the initial table as a parameter. The program passes the `MACROS` literal, which is `LegacyTable.InitialMacros`.
- LegacyMain.LegacyPeer.EditMacro: the parse step raises `ValueError`/`IndexError` on a malformed line. The model returns `Unparsable` instead of raising.
- LegacyMain.LegacyPeer.EditMacro: the row is written with `INSERT OR REPLACE` (the corrected form below). The plain `INSERT` of the source is modelled by `LegacyTable.EditRowsAsWritten`.
- LegacyMain.LegacyPeer.Rename performs that corrected `INSERT OR REPLACE` write (`LegacyTable.EditRows`) in place of the source's plain `INSERT` (main.py:347).
- LegacyMain.LegacyPeer.DeleteMacro: the hotkey is read back with the corrected parse. The source's own parse is modelled by `LegacyTable.DeleteParseAsWritten`.
- LegacyMain.Dispatch: a message with a missing `"type"` raises `KeyError` in `main.py`; the model ends the session with `MissingType`. Undecodable text likewise ends it with `Undecodable`.

## Findings

| source | as written | input that shows it | evidently intended | confidence | as-written member | corrected member |
|---|---|---|---|---|---|---|
| main.py:370 | the hotkey is read as the text between the first ':' and the first ',' of the list-box line | the initial hotkey "ctrl_l+alt_l+," (main.py:28): its line "Hotkey: ctrl_l+alt_l+,, Action: KEYS:ctrl_l+left" reads back as "ctrl_l+alt_l+", which `MACROS` does not hold, so the row is kept and the macro cannot be deleted | read the hotkey the way `edit_macro` does, splitting at ", " and ": " | not executed | LegacyTable.DeleteParseTruncates | LegacyTable.DeleteParseKeepsComma |
| main.py:345-347 | the edit deletes the old row, then writes the new one with a plain `INSERT`; the connection commits in `finally` | renaming "ctrl_l+alt_l+r" to "ctrl_l+alt_l+l" while both are stored: the insert raises on the primary key after the delete is committed, so the macro stays in `MACROS` without a row | write the new row with `INSERT OR REPLACE`, as `update_db_and_dict` does | not executed | LegacyTable.EditAsWrittenLosesRow | LegacyTable.EditAgrees |
