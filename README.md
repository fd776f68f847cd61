# A verified model of a small distributed hash table and its monitor

The system is a Chord-style distributed hash table made of three programs:

- **Storage nodes** (`peer.py`, on top of the event layer `mynet.py`) sit on a 160-bit identifier ring. Each node keeps:
  - a finger table of 160 slots;
  - a predecessor and a successor-of-successor;
  - failure counters fed by pings;
  - the items it stores;
  - the lookups (transactions) it has open.
- **A central daemon** (`daemon.py`) tracks every node host as DEAD, STOPPED or STARTED. It talks a line protocol with the nodes and with monitoring clients.
- **A Swing monitor** (`GUI.java`) shows the daemon's hosts in a table. Its buttons send stop, start and kill requests.

This project models the logic of all three in Dafny. The model takes the source's own form:

- Objects whose fields the source changes in place are classes with methods. These are the table model, the client, `Peer`, `Daemon`, the node object, events, timers and sockets.
- Each class method is proved to have exactly the effect of a specification function on values. Properties are then proved about those functions as lemmas.

| file | models |
|---|---|
| outcomes.dfy | `Option`, `Result`, the exceptions the programs can raise (`Fault`) and how a handler ends (`Outcome`) |
| strings.dfy | Java's `split("\\s+")` and `Integer.parseInt`; Python's `str.split(sep)`, `sep.join`, `int()` and `'%d'` |
| framing.dfy | the newline framing shared by the three `on_data` handlers (`data.find('\n')`) |
| host_table.dfy | `GUI.java`: `MyTableModel` (`Entry`, `set`, `getRowCount`, `getValueAt`), `processMessage`, `stop`/`start`/`kill`, the `CHELLO` handshake |
| daemon.dfy | `Peer` and its transitions, `get_state`; `Daemon.on_data` framing and dispatch, `on_error`, `do_start`/`do_stop`/`do_kill`, `broadcast` |
| ring_ids.dfy | `id_distance` and `add_to_id` over 40-digit hex digests |
| node.dfy | `peer.py` as step functions on a node-state value: `Trans`, `find_forward`, `on_dgram`, `handle_found`, `on_data` and its item-table updates, RETR, `ping_timer_cb`, `backup_timer_cb`, `on_error`, `start` |
| node_server.dfy | `peer.py`'s `Main` as a class whose methods update its fields, each proved equal to its step function |
| net.dfy | `mynet.py`: `Event.enable`/`disable`, `Timer.add`/`remove` and `sort_timers`, the timer part of `dispatch`, `StreamSocket`, `DgramSocket` |
| protocol.dfy | the GUI and the daemon talking to each other |

How the environment is modelled:

- **Crashes.** An uncaught Python or Java exception becomes `Failed(fault)` or `Err(fault)`, naming the exception.
- **Where a crash stops a handler.** On a crash, the model keeps the state changes made before it. A state change that comes after the crash point is not made.
- **Hashing and encoding.** `make_id`, `make_file_id` and base64 are functions the node is given.
- **Time and the kernel.** The clock, the bytes a `send` accepts and the bytes a `recv` delivers are parameters.
- **Unordered iteration.** Python dict and set iteration order is a sequence parameter that enumerates the collection once, in any order.

## Model

| member | source | states |
|---|---|---|
| `HostTable.CompareStrings` | GUI.java:133-135 | `compareTo` on hosts is negative, zero or positive exactly when the first host sorts before, equals or sorts after the second (lexicographic order) |
| `HostTable.SameHost` | GUI.java:137-142 | two entries are `equals` exactly when their hosts compare equal |
| `HostTable.BeforeTransitive` | GUI.java:133-135 | the host order is transitive |
| `HostTable.BeforeTotal` | GUI.java:133-135 | two different hosts are always ordered one way or the other |
| `HostTable.BeforeAsymmetric` | GUI.java:133-135 | the host order is asymmetric |
| `HostTable.RemoveFirst` | GUI.java:152 | `List.remove(e)` leaves the list alone when no entry has the host, and otherwise shortens it by one |
| `HostTable.RemoveFirstSorted` | GUI.java:152 | on a sorted table, `remove` drops exactly the entry with that host and keeps the rest sorted |
| `HostTable.InsertEntryPerm` | GUI.java:154 | one step of the stable sort adds the entry and loses nothing |
| `HostTable.SortEntriesPerm` | GUI.java:154 | `Collections.sort` returns a permutation of its input |
| `HostTable.SortEntriesNonDecreasing` | GUI.java:154 | `Collections.sort` leaves the entries in non-decreasing host order |
| `HostTable.SortEntriesOfSorted` | GUI.java:154 | sorting an already ordered list changes nothing, because the sort is stable |
| `HostTable.InsertEntrySorted` | GUI.java:153-154 | adding an entry for a new host to a sorted table and sorting gives a sorted table holding exactly the old entries and the new one |
| `HostTable.UpsertSpec` | GUI.java:147-156 | after `set`, the table is strictly sorted by host. It holds the new entry and every old entry for another host. It grows by one exactly when the host was new |
| `HostTable.UpsertLastWriteWins` | GUI.java:147-156 | after `set(h, p, s)` the only entry for `h` is `(h, p, s)` |
| `HostTable.UpsertOverwrites` | GUI.java:147-156 | two `set`s for the same host leave the table as the second alone would |
| `HostTable.UpsertCommutes` | GUI.java:147-156 | `set`s for different hosts commute |
| `HostTable.SortedUnique` | GUI.java:147-156 | two sorted tables with the same entries are equal, so the table is determined by its contents |
| `HostTable.SortedRowsAreHosts` | GUI.java:162-164 | on a sorted table the row count is the number of distinct hosts |
| `HostTable.TableModel.constructor` | GUI.java:145 | the table starts empty |
| `HostTable.TableModel.Set` | GUI.java:147-156 | `set` updates the entry list in place to the upserted table: the new entry replaces any entry for its host, all other entries are kept, and the table stays sorted |
| `HostTable.TableModel.RowCount` | GUI.java:162-164 | `getRowCount` is the number of distinct hosts in the table |
| `HostTable.TableModel.ValueAt` | GUI.java:166-177 | column 0 is the host, 1 the port, 2 the status, any other column null. A row outside the table throws for columns 0-2 |
| `HostTable.Decode` | GUI.java:88-94 | a message updates the table exactly when it has 4 tokens, the first is `STATE` and the port parses as a Java int. The update is `(args[1], port, args[3])`. Other first tokens or token counts are ignored. An empty token array throws `IndexOutOfBounds`, a bad port `NumberFormat` |
| `HostTable.DecodeStateLine` | GUI.java:88-94 | a `STATE host port status` line, split on whitespace, decodes back to exactly its entry |
| `HostTable.ApplyLinesSpec` | GUI.java:88-98 | after any stream of lines the table is sorted with one row per host. A host's row is the last update naming it, and rows of hosts no line names are kept |
| `HostTable.ExampleSession` | GUI.java:147-156 | after three updates for hosts a, b, a, the table lists a with its latest status, then b |
| `HostTable.ResolveRowsSpec` | GUI.java:101-104 | the hosts resolved from the selected rows are column 0 of the leading rows inside the table. The row after them, if any, is the one whose lookup throws |
| `HostTable.CommandTextAppend` | GUI.java:102-104 | the text for one more host is the old text followed by one `VERB host` line |
| `HostTable.Client.constructor` | GUI.java:48-53 | a new client has an empty table and has written exactly `CHELLO\n` |
| `HostTable.Client.ProcessMessage` | GUI.java:88-98 | the table becomes the decoded message applied to it. A rejected message changes nothing and reports its exception |
| `HostTable.Client.ReceiveLine` | GUI.java:33-37 | a received line is split on whitespace and processed. A line `processMessage` rejects (no tokens, or a port `parseInt` refuses) reports that exception and leaves the table unchanged |
| `HostTable.Client.SendCommand` | GUI.java:100-125 | one `VERB host\n` line per selected row, in row order, with the host from column 0. The loop stops at the first row outside the table with `IndexOutOfBounds` |
| `HostTable.Client.Stop` | GUI.java:100-107 | `CSTOP host` for every selected row |
| `HostTable.Client.Start` | GUI.java:109-116 | `CSTART host` for every selected row |
| `HostTable.Client.Kill` | GUI.java:118-125 | `CKILL host` for every selected row |
| `Strings.SplitOnJoin` | daemon.py:87 | `split(' ')` inverts `' '.join` on words without spaces |
| `Strings.JoinSplitOn` | daemon.py:87 | joining the pieces of `split(sep)` gives back the text |
| `Strings.SplitOn` | daemon.py:87 | `split(sep)` gives at least one piece and no piece holds the separator |
| `Strings.JavaSplit` | GUI.java:34 | `split("\\s+")` gives pieces without whitespace, and no empty piece after the first |
| `Strings.JavaSplitJoin` | GUI.java:34 | splitting a space-joined line of non-empty whitespace-free tokens gives back exactly the tokens |
| `Strings.DecimalRoundTrip` | daemon.py:132 | the decimal digits of `'%d'` read back as the number |
| `Strings.ParseSignedDecimal` | daemon.py:32 | an optionally signed decimal parses back to the integer it prints |
| `Strings.JavaParseInt` | GUI.java:94 | `Integer.parseInt` succeeds exactly on a signed decimal inside the 32-bit range |
| `Strings.JavaParseIntDecimal` | GUI.java:94 | `Integer.parseInt` reads back every 32-bit integer printed in decimal |
| `Strings.PythonIntDecimal` | daemon.py:32 | `int(str)` reads back every printed integer |
| `Strings.PythonIntSpaceAfterSign` | daemon.py:32 | `int(s)` skips whitespace between the sign and the digits: a sign, whitespace and decimal digits read as the signed value |
| `Framing.Find` | daemon.py:81 | `find('\n')` is -1 exactly when there is no newline, and otherwise the index of the first one |
| `Framing.LineLength` | daemon.py:81-87 | the bytes a handler consumes for one line: 0 without a newline, otherwise up to and including the first newline |
| `Framing.LinesAndRest` | mynet.py:117-123 | the complete lines and the unfinished remainder make up the buffer |
| `Framing.LinesOfFrames` | mynet.py:134-135 | text written as a series of lines is read back as exactly those lines |
| `Framing.RestOfFrames` | mynet.py:134-135 | after a series of complete lines, what stays unread is what followed them |
| `Framing.FrameLength` | daemon.py:81-87 | a buffer that starts with a complete line consumes exactly that line |
| `Daemon.ParseLabel` | daemon.py:38-47 | a status word read back is the word of the state it names |
| `Daemon.LabelRoundTrip` | daemon.py:38-47 | every state has its own status word |
| `Daemon.StateWords` | daemon.py:47 | `get_state` has three words: `STATE`, the host, and the state's word |
| `Daemon.Peer.constructor` | daemon.py:15-19 | a new peer is DEAD with port 0 and no socket |
| `Daemon.Peer.Disconnected` | daemon.py:21-24 | `disconnected` restores exactly the state of a new peer |
| `Daemon.Peer.Hello` | daemon.py:26-28 | `hello` sets STOPPED and the socket, port untouched |
| `Daemon.Peer.Started` | daemon.py:30-32 | `started` sets STARTED, then `int(port)`. A bad port raises `ValueError` with the state already STARTED and the old port kept |
| `Daemon.Peer.Stopped` | daemon.py:34-36 | `stopped` sets STOPPED and port 0, socket kept |
| `Daemon.Peer.GetState` | daemon.py:38-47 | `get_state` reports the host and the current state's word |
| `Daemon.ParseEncode` | daemon.py:93-123 | every command is recognised from its own words |
| `Daemon.EncodeParse` | daemon.py:93-125 | only the words of a command, with the verb's exact number of arguments, are recognised; anything else is dropped |
| `Daemon.MessageOfLine` | daemon.py:80-127 | a command written as one line reaches `on_data` as that command and consumes exactly that line |
| `Daemon.Bootstraps` | daemon.py:131-134 | `do_start` always has a bootstrap to offer |
| `Daemon.BootstrapNone` | daemon.py:131-134 | `'none'` is offered exactly when no peer is STARTED, and any other bootstrap is `host:port` of a STARTED peer |
| `Daemon.Daemon.constructor` | daemon.py:51-58 | one new DEAD peer per host named, no clients, nothing written |
| `Daemon.Daemon.OnError` | daemon.py:73-78 | every peer on the failed socket is disconnected, every other peer keeps its fields, and the socket is no longer a client |
| `Daemon.DropSocketSpec` | daemon.py:73-78 | after `on_error` no peer refers to the socket, the peers that did are offline, the others are unchanged, and clean peers stay clean |
| `Daemon.Daemon.Broadcast` | daemon.py:148-150 | the message is written once to every client and to nothing else |
| `Daemon.Daemon.DoStart` | daemon.py:129-136 | `START bootstrap` is written only to a STOPPED peer, with a bootstrap `do_start` may choose. An unknown host raises `KeyError` and a peer without a socket `AttributeError`; nothing else changes |
| `Daemon.Daemon.DoStop` | daemon.py:138-141 | `STOP` is written only to a STARTED peer |
| `Daemon.Daemon.DoKill` | daemon.py:143-146 | `KILL` is written only to a STARTED or STOPPED peer, never to a DEAD one |
| `Daemon.Daemon.ReceiveHello` | daemon.py:93-97 | HELLO sets the peer STOPPED on the socket and broadcasts its state |
| `Daemon.Daemon.StartPeer` | daemon.py:98-102 | STARTED changes only that peer, to STARTED with its port |
| `Daemon.Daemon.ReceiveStarted` | daemon.py:98-103 | STARTED starts the peer and broadcasts its state. A bad port raises before the broadcast |
| `Daemon.Daemon.ReceiveStopped` | daemon.py:104-108 | STOPPED stops the peer and broadcasts its state |
| `Daemon.Daemon.ReceiveClientHello` | daemon.py:114-117 | CHELLO raises `AttributeError` (the loop calls `get_state` on host names) unless there are no peers, and only then registers the client |
| `Daemon.Daemon.OnData` | daemon.py:80-127 | nothing happens without a newline; a lone newline is consumed as a keep-alive; otherwise the first line is dispatched and consumed with its newline |
| `RingIds.DigestDistance` | peer.py:477-488 | `id_distance(a, b)` lies in 1..2^160, is 2^160 exactly when `a == b`, and steps clockwise from `a` to `b` |
| `RingIds.DigestDistanceAgrees` | peer.py:477-488 | `id_distance` on two digests never fails and equals the clockwise distance |
| `RingIds.DistanceOfValues` | peer.py:477-488 | `id_distance` is `(b - a) mod 2^160`, with 2^160 for equal ids |
| `RingIds.DistanceToSelf` | peer.py:478-482 | `id_distance(a, a)` is 2^160 |
| `RingIds.DistanceRoundTrip` | peer.py:477-488 | for different ids, the distance there and the distance back add up to one turn |
| `RingIds.DistanceOrder` | peer.py:477-488 | from a common start, `x` is nearer than `b` exactly when `x` lies on the open arc from the start to `b` |
| `RingIds.DistanceOrderTo` | peer.py:477-488 | towards a common end, `x` is nearer than `a` exactly when `x` lies on the open arc from `a` to the end |
| `RingIds.IdDistance` | peer.py:477-488 | `id_distance` fails exactly when the two ids differ as strings and one of them is not a number `long(s, 16)` accepts, and the failure is `ValueError`. Equal strings give 2^160 without being parsed |
| `RingIds.ParseHexSpaceAfterMinus` | peer.py:483-484 | `long(s, 16)` skips whitespace between a minus sign and the digits, with or without a `0x` prefix, and reads the negated value |
| `RingIds.ParseHexSpaceAfterPlus` | peer.py:483-484 | the same after a plus sign, which reads the plain value |
| `RingIds.Format040xValue` | peer.py:494 | `'%040x'` reads back as its number |
| `RingIds.Format040xLength` | peer.py:494 | `'%040x'` has exactly 40 digits exactly when the number is below 2^160 |
| `RingIds.AddToId` | peer.py:490-494 | the corrected `add_to_id` is `(id + n) mod 2^160` |
| `RingIds.AddToIdDistance` | peer.py:490-494 | for `1 <= n < 2^160`, the corrected `add_to_id(id, n)` lies exactly `n` clockwise from `id` |
| `RingIds.AddToIdAgrees` | peer.py:490-494 | without overflow, the code as written and the corrected one agree |
| `RingIds.AddToIdWraps` | peer.py:490-494 | as written, any sum past the top of the ring is formatted as a string that is not a 40-digit id |
| `RingIds.AddToIdTopRoutesLikeZero` | peer.py:490-494 | as written, one step past the top of the ring gives text other than the zero id, yet every id's `id_distance` to it equals its distance to the zero id |
| `RingIds.AddToIdOverflow` | peer.py:490-494 | as written, `add_to_id` past the top of the ring gives 41 digits, at distance 2^160 + 1 from zero instead of 1 |
| `Node.TransIdInjective` | peer.py:25-29 | different counter values give different transaction ids |
| `Node.OpenSpec` | peer.py:20-29 | opening a transaction never replaces an open one, and keeps every open one |
| `Node.CloseSpec` | peer.py:57-60 | removing a transaction keeps the table well-formed |
| `Node.ForwardSpec` | peer.py:346-354 | `find_forward` scans the fingers from the top. It forwards to the highest present finger strictly nearer than the hash, or finds none. A bad hash fails with `ValueError` once any finger is present |
| `Node.CloserInArc` | peer.py:352 | a finger qualifies exactly when it lies on the open arc from the node to the hash |
| `Node.ForwardMessage` | peer.py:346-360 | with a qualifying finger, FIND goes to it. Otherwise FOUND goes back to the asker, naming `finger[0]`, or the node itself when `finger[0]` is empty |
| `Node.AloneOwnsEverything` | peer.py:346-360 | a node that started without a boot peer answers every lookup for a 40-digit hex key itself |
| `Node.AloneRejectsNonHex` | peer.py:346-352 | on such a node, a lookup for a key that is not hex raises `ValueError` in the loop, unless the node's name is empty and the loop skips its only slot |
| `Node.AdoptsPredecessor` | peer.py:167-174 | NOTIFY replaces `prev` exactly when there is none or the peer lies strictly between `prev` and the node |
| `Node.AdoptsSuccessor` | peer.py:175-182 | PRED replaces `finger[0]` exactly when the peer lies strictly between the node and its successor |
| `Node.DgramSpec` | peer.py:143-203 | every datagram keeps the node well-formed, and an unknown or malformed one changes nothing |
| `Node.NodeMsgRoundTrip` | peer.py:144-203 | every node-to-node message is read back from its own words |
| `Node.FoundKeeps` | peer.py:205-243 | every answer to a lookup keeps the node well-formed and leaves the stored items alone |
| `Node.FoundIgnores` | peer.py:206-220 | an unknown transaction, or a finger answer naming the node itself, changes nothing |
| `Node.FoundFinger` | peer.py:217-231 | a finger answer sets exactly that slot and closes the transaction. Slot 0 first connects to the new successor for RETR, and a malformed address stops it |
| `Node.FoundBackup` | peer.py:232-237 | a backup answer sets `succsucc` and closes the transaction, fingers unchanged |
| `Node.ClientOf` | peer.py:299-300 | `t.client` is the client socket of a client lookup. An unknown id raises `KeyError` and a non-client lookup `AttributeError` |
| `Node.RequestRoundTrip` | peer.py:253-338 | every request is read back from its own words |
| `Node.RequestOfLine` | peer.py:246-253 | a request written as one line reaches `on_data` as that request |
| `Node.HandleKeeps` | peer.py:265-338 | every request keeps the node well-formed, and an unknown or malformed one changes nothing |
| `Node.HandleItems` | peer.py:309-336 | PUT stores the decoded data under its file id and XFER under the given hash. No other request changes the items |
| `Node.Transfers` | peer.py:329 | RETR's test is `id_distance(low, k) < id_distance(low, high)`. It raises `ValueError` exactly when one of the two `id_distance` calls does, that is, for two different ids one of which is not hex |
| `Node.TransfersArc` | peer.py:324-329 | on digests, RETR transfers exactly the keys on the open arc from `low` to `high` |
| `Node.TransfersExcludesHigh` | peer.py:324-329 | `high` itself is never transferred, although the comment says `(low, high]` |
| `Node.Selected` | peer.py:328-329 | the keys selected are exactly those the test accepts |
| `Node.RetrOutcome` | peer.py:326-332 | RETR succeeds exactly when the test is defined for every key, and fails only with `ValueError`. On success it writes one XFER per selected key, in iteration order, then closes when done |
| `Node.RetrWritesSelected` | peer.py:328-331 | a RETR loop that completes has written one XFER per selected key |
| `Node.PruneDeadSpec` | peer.py:381-395 | a dead `prev` is forgotten. A dead successor is replaced by `succsucc`, which is then cleared. Dead fingers 1..159 are cleared and live slots are kept |
| `Node.FirstSeenSpec` | peer.py:400-405 | the heartbeat visits each distinct present peer of `finger + [prev]` once |
| `Node.RecountAt` | peer.py:400-409 | the new counters hold exactly the visited peers, each at its old count plus one |
| `Node.PingsSpec` | peer.py:400-407 | a PING goes to each visited peer in order, stopping at the first address that does not parse |
| `Node.HeartbeatOutcome` | peer.py:397-409 | the heartbeat succeeds exactly when every visited peer's address parses, and a failure keeps the old counters |
| `Node.HeartbeatCounters` | peer.py:397-409 | after a heartbeat the counters hold exactly the distinct present peers of `finger + [prev]`, each at its old count plus one |
| `Node.HeartbeatPackets` | peer.py:397-409 | after a heartbeat exactly one PING is queued per distinct present peer, in visiting order |
| `Node.BackupKeySpec` | peer.py:426 | `add_to_id(make_id(finger[0]), 1)` as written is the id one step clockwise from the successor below the top of the ring. At the top it is no id, but every distance to it is the distance to the zero id |
| `Node.BackupTimerSpec` | peer.py:412-426 | the process exits exactly when both `finger[0]` and `succsucc` are missing. Otherwise it has a successor and looks up `add_to_id(succ, 1)` as written. That key is the id one step clockwise from the successor, except when the successor is the top of the ring: there the key is a 41-digit string and no id, yet every `id_distance` to it equals the distance to the zero id, so the lookup is routed as intended |
| `NodeServer.Server.constructor` | peer.py:68-81 | a new node has the initial state |
| `NodeServer.Server.Start` | peer.py:98-105 | `start` with a boot peer asks it to find the node's successor. Without one, the node forms a ring of its own |
| `NodeServer.Server.OpenTrans` | peer.py:20-29 | `Trans(...)` followed by `add` files a fresh id |
| `NodeServer.Server.RemoveTrans` | peer.py:57-60 | `remove` drops exactly that transaction |
| `NodeServer.Server.SendDgram` | mynet.py:208-213 | `dgram_socket.send` queues what the send function gives |
| `NodeServer.Server.OnConnect` | peer.py:128-129 | `on_connect` records the socket |
| `NodeServer.Server.ConnectTo` | peer.py:362-367 | `connect` registers the socket before splitting the address, and only a parsed address is connected and written to |
| `NodeServer.Server.ForwardSlot` | peer.py:348-354 | the reversed scan over the fingers finds the slot the specification chooses |
| `NodeServer.Server.FindForward` | peer.py:346-360 | `find_forward` has the effect of its step function |
| `NodeServer.Server.HandleFound` | peer.py:205-243 | `handle_found` has the effect of its step function |
| `NodeServer.Server.OnDgram` | peer.py:143-203 | `on_dgram` has the effect of its step function |
| `NodeServer.Server.Retr` | peer.py:326-332 | the RETR loop over the item keys, in some order, has the effect of the RETR step function for that order |
| `NodeServer.Server.OnData` | peer.py:246-340 | `on_data` consumes exactly one line and has the effect of its step function |
| `NodeServer.Server.PruneDeadPeers` | peer.py:381-395 | the pruning loop leaves the node in the pruned state |
| `NodeServer.Server.PingSlotsLoop` | peer.py:398-408 | the heartbeat loop builds the counters and PINGs of its slot-by-slot specification |
| `NodeServer.Server.SendHeartbeat` | peer.py:397-409 | the heartbeat has the effect of its step function |
| `NodeServer.Server.PingTimer` | peer.py:376-409 | `ping_timer_cb` prunes the dead and then sends the heartbeat |
| `NodeServer.Server.BackupTimer` | peer.py:412-426 | `backup_timer_cb` has the effect of its step function, including the lookup of `add_to_id` as written |
| `NodeServer.Server.OnError` | peer.py:131-140 | `on_error` forgets the socket. It fails with `NameError` when a lookup is still open for that socket |
| `Net.Event.Enable` | mynet.py:69-71 | `enable` registers the event under `(fd, ev)` unless that key is already taken. Other keys and the timers are untouched |
| `Net.Event.Disable` | mynet.py:73-75 | `disable` removes the key `(fd, ev)` and nothing else |
| `Net.EnableDisableIdempotent` | mynet.py:69-75 | `enable` and `disable` are idempotent |
| `Net.DisableUndoesEnable` | mynet.py:69-75 | disabling an event just enabled restores the registry |
| `Net.SortByTimePerm` | mynet.py:59-61 | `sort_timers` returns a permutation of the timers |
| `Net.SortByTimeSorted` | mynet.py:59-61 | `sort_timers` orders the timers by timeout |
| `Net.SortByTimeOfSorted` | mynet.py:59-61 | sorting timers already in order changes nothing, since the sort is stable |
| `Net.Timer.Add` | mynet.py:231-235 | `add` appends the timer only when it is absent, then sorts |
| `Net.WithTimerSpec` | mynet.py:231-235 | after `add`, the timers are sorted, hold the timer once and everything they held before. Adding a timer already present changes nothing |
| `Net.Timer.Remove` | mynet.py:237-241 | the loop removes every occurrence of the timer, then sorts |
| `Net.EraseSorted` | mynet.py:238-240 | removing every occurrence of a timer from a list sorted by timeout leaves it sorted |
| `Net.WithoutTimerOfSorted` | mynet.py:237-241 | on a sorted list, `remove` leaves exactly the list with the timer erased, in the same order. The closing `sort_timers` moves nothing |
| `Net.WithoutTimerSpec` | mynet.py:237-241 | after `remove`, the timers are sorted, hold no copy of the timer, and keep every other timer, without duplicates |
| `Net.RemoveTimer` | mynet.py:240 | `list.remove` takes out one occurrence and keeps the others |
| `Net.ExpiredPrefix` | mynet.py:45-48 | dispatch fires a prefix of the timers, every one due, and stops at the first timer not due |
| `Net.ExpiredSpec` | mynet.py:45-48 | on sorted timers, dispatch fires exactly the due timers, in timeout order |
| `Net.Events.DrainTimers` | mynet.py:45-48 | the draining loop removes each due timer from the head, in order, before its callback. The rest stay queued and the list stays valid |
| `Net.ConsumeSpec` | mynet.py:117-123 | the prefixes handed over and the unread remainder make up the buffer. No prefix is empty, and the client consumes nothing of the remainder |
| `Net.ConsumeLines` | mynet.py:117-123 | with newline framing, the read loop hands over exactly the complete lines and keeps the unfinished one |
| `Net.StreamSocket.ReadCb` | mynet.py:107-123 | an empty `recv` reports the error and closes. Otherwise the data is buffered and consumed as the read loop specifies |
| `Net.StreamSocket.DrainReadBuffer` | mynet.py:117-123 | the `while helper(self) > 0` loop hands over and removes what the client consumes |
| `Net.StreamSocket.WriteCb` | mynet.py:125-132 | `write_cb` removes exactly the sent prefix. An empty buffer then closes when `send_eof` is set, and otherwise disables writing |
| `Net.StreamSocket.Write` | mynet.py:134-135 | `write` appends `' '.join(data) + '\n'` and enables writing |
| `Net.StreamSocket.WriteRaw` | mynet.py:137-140 | `write_raw` appends the data and enables writing |
| `Net.StreamSocket.CloseWhenDone` | mynet.py:142-147 | an empty write buffer closes at once. Otherwise `send_eof` is set and reading disabled |
| `Net.StreamSocket.Close` | mynet.py:149-152 | `close` disables both events |
| `Net.ParseAddressShape` | mynet.py:212-213 | a parsed address is `host:port` with one colon and a port `int()` accepts |
| `Net.AddressRoundTrip` | mynet.py:212-213 | `host:port` parses back to its host and port |
| `Net.Datagram` | mynet.py:208-213 | an empty or missing address sends nothing. A malformed one raises `ValueError`. Otherwise the joined words go to the parsed address |
| `Net.DatagramAddress` | mynet.py:208-213 | an address written as `host:port`, with no colon in the host, sends the space-joined words to exactly that host and port |
| `Net.DatagramNoPort` | mynet.py:212 | an address without a colon raises `ValueError` |
| `Net.DgramSocket.WriteCb` | mynet.py:201-206 | `write_cb` sends the head of the queue and drops it. It disables writing when the queue empties, and fails with `IndexError` on an empty queue |
| `Net.DgramSocket.Send` | mynet.py:208-213 | `send` queues the datagram its address gives, or nothing, or raises |
| `Net.DgramSocket.SendRaw` | mynet.py:215-218 | `send_raw` appends to the queue, first in first out, and enables writing |
| `Protocol.StateReportIgnored` | GUI.java:88-94 | the daemon's three-word state report is an unknown message to the GUI, whose table it leaves unchanged |
| `Protocol.HandshakeUnderstood` | daemon.py:114-117 | the GUI's `CHELLO` reaches the daemon as CHELLO |
| `Protocol.CommandUnderstood` | daemon.py:118-123 | each stop, start or kill line the GUI writes reaches the daemon as the request of the same kind for the same host |

## Left out

- The Swing UI: window layout, buttons, JTable wiring, `getColumnName`, `getColumnClass`, `fireTableDataChanged`, and the console printing in `processMessage`. The Scanner loop's `System.exit` at end of input is left out too. The GUI's event thread serialises all model calls, so the model is sequential.
- The `select()` wait, real `recv`/`send`/`accept`/`connect` calls and `time()`. The clock is an integer argument. The bytes sent and received are arguments of the callbacks.
- Read and write callbacks being invoked from `dispatch`. Only its timer-draining loop is modelled, and the callbacks it would run are not.
- `ListenSocket` and `DgramSocket.read_cb`. They hand incoming connections and datagrams to the handlers, which are modelled directly.
- SHA-1 (`make_id`, `make_file_id`) and base64. These are functions the node is given; their digests are assumed to be 40 lowercase hex digits.
- Random choices: the timer delays at peer.py:94 and the finger index at peer.py:433. `do_start`'s bootstrap is any member of the allowed set.
- `manage.py`, `finger_timer_cb`, `stabilize_timer_cb` and `prune_timer_cb`. They sit outside the modelled core; the PRUNE answer of `handle_found` is modelled.
- `Main.stop`, and the rescheduling of timers at the head of each timer callback.
- The 10-second timer of a SHOW transaction (peer.py:45-52).
- `do_spawn` and the keepalive and revive timers of the daemon (daemon.py:153-173), which spawn processes and run on timers.
- `Daemon.Daemon.constructor`: models only the peer table. The listening socket and the two timers are not modelled, and `Timer` is not imported in daemon.py (line 61), so the real constructor raises `NameError` at that line.
- `HostTable.SortEntriesPerm`, `Net.SortByTimePerm`: `Collections.sort` and `list.sort` are modelled as a stable insertion sort. Any stable sort gives the same result on the same input, but running time is not modelled.
- `RingIds.IdDistance`, `Node.Transfers`: hex parsing accepts both letter cases, surrounding whitespace, a sign, whitespace after the sign and a `0x` prefix, as Python 2's `long(s, 16)` does. The trailing `L` that Python 2 also accepts is not modelled, so such an id fails here.
- `Strings.JavaParseInt`: only ASCII digits are accepted. `Integer.parseInt` also accepts any other Unicode decimal digit (for example U+0663), so such a port is rejected here where Java accepts it.
- `HostTable.CompareStrings`: orders hosts by Unicode code point, while `String.compareTo` compares UTF-16 code units. The two orders differ only between a character above U+FFFF and one in U+E000-U+FFFF, so hosts containing such characters may sort differently.
- The printing done by every handler.

## Findings

| source | as written | input that shows it | evidently intended | confidence | as-written member | corrected member |
|---|---|---|---|---|---|---|
| peer.py:490-494 | `add_to_id` computes the sum masked to 160 bits but formats the unmasked `id + n`. `backup_timer_cb` (peer.py:426) calls it with `n` = 1, so a successor at the top of the ring gets a backup lookup whose key text is the 41-digit 2^160 rather than the zero id. That key is still routed exactly like the zero id, and the BACKUP answer does not read the key, so for `n` = 1 only the text differs (`Node.BackupTimerSpec`). A difference in routing needs `n` >= 2, which only the finger refresh uses, and that timer is not part of this model | `id` = forty `f` digits, `n` = 2: gives `1` followed by 39 `0` and a `1`, 41 digits, at `id_distance` 2^160 + 1 from zero instead of 1 | the 40-digit form of `(id + n) mod 2^160`, the masked sum | high; not executed | `RingIds.AddToIdWraps`, `RingIds.AddToIdOverflow` | `RingIds.AddToId`, `RingIds.AddToIdDistance` |
