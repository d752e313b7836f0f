# osysmon in Dafny

A model of the core of osysmon, the Osmocom system monitor, with the
properties of that core proved. osysmon is a daemon that wakes up once a
second. Each time it builds a fresh report tree under a node named "root",
lets each data source add its nodes, prints the tree and frees it.

The model covers:

- **The report tree** (`value_node.dfy`). The nodes live in a heap class
  `ValueTree` whose methods add, find, find-or-add and delete nodes in place.
  Each node's subtree can be read off as a pure `Tree` value.
- **The synchronous CTRL client** (`simple_ctrl.dfy`).
  - It sends GET and SET requests in IPA frames and matches the replies.
  - Its connection is a pair of scripts: the receive events the peer will
    deliver and the write outcomes it will accept.
  - A `CtrlHandle` class keeps the request counter and the timeout.
- **The host configuration helpers** (`client.dfy`).
- **The data sources**, each a class holding the source's configuration list
  and a `Poll` method that works on the heap. Each `Poll` is proved equal to a
  pure function of the source's configuration and of what the operating system
  answered:
  - CTRL (`osysmon_ctrl.dfy`)
  - sysinfo (`osysmon_sysinfo.dfy`)
  - files (`osysmon_file.dfy`)
  - shell commands (`osysmon_shellcmd.dfy`)
  - network devices over rtnetlink (`osysmon_rtnl.dfy`)
  - OpenVPN management interfaces (`osysmon_openvpn.dfy`)
- **The program around them, in both forms the repository holds:**
  - `osysmon_main.dfy` is `src/osysmon_main.c`. It polls sysinfo, ctrl, rtnl
    and file, then prints every node, indented.
  - `osysmon_main_legacy.dfy` is the top-level `osysmon_main.c`. It polls only
    sysinfo and ctrl, then prints only the nodes that carry a value.
  - For both forms, the loop is a method over the heap (`Cycle`,
    `LegacyCycle`). It is proved equal to a function on values (`PollCycle`,
    `LegacyPoll`), and the run of any number of cycles is a fold over those
    functions (`Run`, `LegacyRun`).
- **Shared C conventions** live in `ctext.dfy`:
  - fixed-width integers and NUL-terminated strings
  - printf's `%u`, `%02lu` and `%02x`
  - snprintf's cut, strrchr and atoi
  - scanf's `%u` and `%ms`

  `registry.dfy` holds the first-match lookup by key that every configuration
  list uses. `poll_tree.dfy` holds the facts that relate a source's steps on
  the heap to the value of the node it polls into.

Four behaviours of the code are worth knowing; the model follows them:

- A CTRL client's node is named after the client's configured name
  (`src/osysmon_ctrl.c:269`).
- That node is added before the connection attempt, so it appears even when
  the connection fails (`src/osysmon_ctrl.c:269-277`).
- `osysmon_shellcmd_poll` adds its "shellcmd" node even with no command
  configured (`src/osysmon_shellcmd.c:168`), so this empty category is shown.
- The later `main` does not poll the shell-command, OpenVPN or ping sources
  (`src/osysmon_main.c:231-241`). Those sources are modelled, but no cycle
  calls them.

The rtnetlink source uses `value_node_find_by_idx` and the `idx` field of a
node. The top-level value_node.c and value_node.h define neither, and
src/value_node.c is not part of this model, so the model assumes them:

- `idx` is an optional integer, absent when the node is allocated.
- `find_by_idx` returns the first immediate child whose key equals the one
  asked for.

`update_name` and `update_host`, which the OpenVPN source calls, are modelled
as plain setters of the name and of the host.

## Model

| member | source | states |
|---|---|---|
| ValueNode.ValueTree.Find | value_node.c:55-63 | find looks only at p's immediate children. It returns the first child with that name, or none exactly when no child has it. The heap is not changed. |
| ValueNode.ChildNamedView | value_node.c:55-63 | find on the heap agrees with the first-by-name search on the parent's value, in both directions. |
| ValueNode.ValueTree.Add | value_node.c:30-53 | If the parent already has a child of that name, add returns NULL and leaves the heap unchanged. Otherwise it appends a fresh node at the tail of the parent's children. With no parent, the new node is a detached root. The new node has the given value and no children. |
| ValueNode.ValueTree.Append | value_node.c:40-51 | The new node's record holds the name, the copied value (absent for NULL), no children and no key. It is linked at the tail of its parent's children, or it stands alone. |
| ValueNode.AddView | value_node.c:44-49 | A successful add extends the parent's value by one childless leaf at the tail. The children the parent had keep their order. |
| ValueNode.AddThenFind | value_node.c:65-72 | After a successful add, the new node is the child find returns for that name, so a second find_or_add returns the same node. |
| ValueNode.ValueTree.FindOrAdd | value_node.c:65-72 | If a child of that name exists, find_or_add returns it and changes nothing. Otherwise it appends one valueless child at the tail and returns it. |
| ValueNode.TFindOrAdd | value_node.c:65-72 | After find_or_add, the parent's value has a child of that name. |
| ValueNode.ValueTree.Del | value_node.c:74-87 | del unlinks the node from its parent and frees exactly the node's subtree. Every other node keeps its record, except the parent, which loses that child. |
| ValueNode.DelView | value_node.c:74-87 | After del, the parent's value is its old value without exactly that child. The other children stay in order. |
| ValueNode.SiblingKept | value_node.c:74-87 | Deleting a node keeps the value of each of its siblings. |
| ValueNode.FreedValid | value_node.c:74-87 | After a deletion the heap invariant holds: parent and child links agree, sibling names are unique, and references increase downward. |
| ValueNode.AttachValid | value_node.c:40-51 | After a successful add the heap invariant holds again. |
| ValueNode.ValueTree.FindByIdx | src/osysmon_rtnl.c:299 | The assumed find_by_idx returns the first immediate child carrying the key, or none exactly when no child carries it. |
| ValueNode.ChildIndexedView | src/osysmon_rtnl.c:299 | find_by_idx on the heap agrees with the first-by-key search on the parent's value. |
| ValueNode.ValueTree.SetIdx | src/osysmon_rtnl.c:208 | Setting a node's key changes that node's record in the key only. |
| ValueNode.SetIdxView | src/osysmon_rtnl.c:208 | Setting a node's key keeps the heap invariant. The node's value changes in the key only. |
| Client.MatchConfig | src/client.c:33-52 | MATCH_NAME is equality with the name, and MATCH_HOST is equality with the host. MATCH_EITHER is their disjunction and MATCH_BOTH their conjunction. Any other kind is false. Each holds in both directions. |
| Client.MatchEither | src/client.c:43-44 | Matching either field is exactly matching the name or matching the host. |
| Client.MatchBoth | src/client.c:45-46 | Matching both fields is exactly matching the name and matching the host. |
| Client.HostCfgAlloc | src/client.c:54-65 | The record holds the given name, host and port. |
| Client.AllocMatchesItself | src/client.c:54-65 | A fresh record matches its own name and its own host. It matches both at once exactly when the name and the host are the same text. |
| Client.MakeAuthority | src/client.c:67-73 | make_authority returns NULL exactly when there is no remote host. |
| Client.AuthoritySplits | src/client.c:67-73 | The authority splits back at its last ':' into the host and the decimal port, even when the host holds colons. |
| CText.DecimalRoundTrip | src/client.c:72 | Printing with %u and reading the digits back gives the number. |
| CText.Snprintf | src/osysmon_sysinfo.c:113-114 | snprintf keeps the text when it fits the buffer, and otherwise its first size - 1 characters. |
| CText.Pad2 | src/osysmon_sysinfo.c:118-119 | %02lu gives at least two digits, and they read back as the number. |
| CText.Hex2 | src/osysmon_rtnl.c:210-215 | %02x gives two lower-case hex digits that read back as the byte, the high nibble first. |
| CText.HexDigit | src/osysmon_rtnl.c:210-215 | The digit printed for a nibble is a lower-case hex digit that reads back as the nibble. |
| CText.StrRChr | src/osysmon_file.c:89-91 | strrchr gives the last position of the character, or none exactly when it does not occur. |
| CText.JoinSplits | src/osysmon_shellcmd.c:120 | Words joined by a separator none of them holds split back into the same words. |
| CText.TextOfBytes | simple_ctrl.c:223-226 | Text whose characters fit a byte survives the trip through the wire's bytes. |
| Registry.IndexOfKey | src/osysmon_file.c:40-49 | The lookups by key return the first entry with the key, or none exactly when no entry has it. |
| Registry.UniqueRemove | src/osysmon_file.c:66-70 | Unlinking an entry keeps the keys unique, and the removed key is gone. |
| SimpleCtrl.TimevalFromMsec | simple_ctrl.c:44-54 | 0 ms is "no timeout", and only 0 ms is. Otherwise usec < 1000000 and sec * 1000000 + usec = ms * 1000. |
| SimpleCtrl.ReadStream | simple_ctrl.c:56-72 | A read takes at most the bytes asked for. Only a timed read can time out. |
| SimpleCtrl.WriteStream | simple_ctrl.c:74-90 | A write takes at most the given bytes. Its only errors are -1 and, when timed, -ETIMEDOUT. |
| SimpleCtrl.EncodeFrame | simple_ctrl.c:219-238 | A frame is a 3-byte header, the big-endian length of the payload then the protocol byte, followed by the payload. |
| SimpleCtrl.IpaReceiveSpec | simple_ctrl.c:160-192 | A received payload plus its 3-byte header stays below msgb_alloc's 16-bit size, and the frame consumes its header and payload from the stream. |
| SimpleCtrl.IpaRoundTrip | simple_ctrl.c:160-192 | A frame whose size fits msgb_alloc and that arrives whole is received as it was encoded. Nothing after it is consumed. |
| SimpleCtrl.ReceiveOversized | simple_ctrl.c:174-179 | A header announcing 65533 or more bytes ends the receive with a failure, once the header is read. |
| SimpleCtrl.ReceiveFails | simple_ctrl.c:166-188 | A read error, a header shorter than 3 bytes, or a payload shorter than announced fails the receive. |
| SimpleCtrl.ReceiveStall | simple_ctrl.c:166-175 | With a timeout, silence fails the receive. Without one, the receive waits it out. |
| SimpleCtrl.CtrlPayload | simple_ctrl.c:206-211 | The corrected test: a frame is kept exactly when it is an Osmocom frame whose first payload byte is the CTRL extension. The text handed on is the payload after that byte. |
| SimpleCtrl.CtrlPayloadAgrees | simple_ctrl.c:206-211 | On every frame with a payload, the corrected test and the test as written agree, whatever lies beyond the frame. |
| SimpleCtrl.EmptyFrameAcceptedAsWritten | simple_ctrl.c:206-211 | The test as written accepts an empty Osmocom frame when the byte past it is zero. The corrected test refuses it. |
| SimpleCtrl.ReceiveSpec | simple_ctrl.c:194-217 | The receive loop never consumes more than the stream holds. |
| SimpleCtrl.ReceiveSkips | simple_ctrl.c:201-216 | A frame that is not a CTRL frame is discarded, and the receive goes on. |
| SimpleCtrl.ReceiveTakes | simple_ctrl.c:201-216 | The first CTRL frame ends the receive, its text after the extension byte. |
| SimpleCtrl.Request | simple_ctrl.c:219-238 | A request is the Osmocom header whose length counts the extension byte and the command, then the CTRL extension byte, then the command's bytes. |
| SimpleCtrl.SendSpec | simple_ctrl.c:219-238 | A send succeeds exactly when the whole request reached the wire. A write error or short write is a failure, and a send never consumes received data. |
| SimpleCtrl.ScannedU32 | simple_ctrl.c:273 | %u stores the number itself when it has no sign and fits 32 bits. |
| SimpleCtrl.ScanU32Decimal | simple_ctrl.c:273 | %u reads back a number printed with %u after a blank. |
| SimpleCtrl.ScanWordBack | simple_ctrl.c:273 | %ms reads back a word without white space after a blank. |
| SimpleCtrl.ScanReplyLine | simple_ctrl.c:273 | The reply scanner reads back every reply line "KEYWORD id name value" a server formats. |
| SimpleCtrl.ScanReplyLineThen | simple_ctrl.c:273 | The scanner reads back a reply line followed by anything that starts with white space. What follows the third word is ignored. |
| SimpleCtrl.ConvsWords | simple_ctrl.c:273 | Every word the scanner stores is non-empty, free of white space and made of characters of the text. |
| SimpleCtrl.Inc | simple_ctrl.c:264 | next_id++ in 32 bits: the next id is the old one plus one, modulo 2^32. |
| SimpleCtrl.MatchGet | simple_ctrl.c:273-287 | On a reply text, the GET value is handed back exactly when the text parses as GET_REPLY with the id sent and the variable asked for. |
| SimpleCtrl.ReplyText | simple_ctrl.c:249-250 | The reply text lies within the payload: a prefix of its bytes, free of NUL. |
| SimpleCtrl.ReplyTextAsWritten | simple_ctrl.c:249-250 | Scanned as written, the reply text extends the text cut at the payload's end. It equals that text when the payload holds a NUL or a NUL follows it. |
| SimpleCtrl.GetOverrunAsWritten | simple_ctrl.c:249-250 | As written, word characters past the frame, ended by a NUL or white space, are appended to the GET value. The reading cut at the payload's end returns the value sent. |
| SimpleCtrl.SetOverrunAsWritten | simple_ctrl.c:249-250 | As written, word characters past the frame make a SET_REPLY that echoes the value fail. The reading cut at the payload's end accepts it. |
| SimpleCtrl.GetAnsweredAsWritten | simple_ctrl.c:273-279 | As written, a matching GET_REPLY returns the value sent when the bytes past the frame begin with a NUL or white space. |
| SimpleCtrl.SetAnsweredAsWritten | simple_ctrl.c:310-315 | As written, a SET_REPLY echoing the value is accepted when the bytes past the frame begin with a NUL or white space. |
| SimpleCtrl.GetSpec | simple_ctrl.c:253-288 | A request that does not fit the message buffer fails with nothing sent. A value comes back only when the request went out whole and the matching reply arrived. The reply is read as text that ends with the payload. |
| SimpleCtrl.SetSpec | simple_ctrl.c:290-326 | The result is 0 or -1. It is 0 only for a matching SET_REPLY to a request that went out whole. An over-long request fails with nothing sent. The reply is read as text that ends with the payload. |
| SimpleCtrl.GetAnswered | simple_ctrl.c:253-288 | A GET answered by the matching GET_REPLY returns the value, with the reply read as text that ends with the payload. The request is on the wire and the rest of the stream is unread. |
| SimpleCtrl.GetMismatch | simple_ctrl.c:275-287 | A GET_REPLY echoing another id or another variable is refused. |
| SimpleCtrl.SetAnswered | simple_ctrl.c:290-326 | A SET answered by the matching SET_REPLY returns 0, with the reply read as text that ends with the payload. |
| SimpleCtrl.SetValueMismatch | simple_ctrl.c:310-325 | A SET_REPLY echoing another value returns -1. |
| SimpleCtrl.CtrlHandle.constructor | simple_ctrl.c:137-143 | A new handle holds its socket, next_id = 0 and the given timeout. |
| SimpleCtrl.CtrlHandle.SetTimeout | simple_ctrl.c:149-152 | The timeout changes and the id does not. |
| SimpleCtrl.CtrlHandle.Close | simple_ctrl.c:154-158 | The socket is closed and its traffic is untouched. |
| SimpleCtrl.CtrlHandle.IpaReceive | simple_ctrl.c:160-192 | simple_ipa_receive is IpaReceiveSpec under the handle's timeout. Nothing is written. |
| SimpleCtrl.CtrlHandle.Receive | simple_ctrl.c:194-217 | The receive loop is ReceiveSpec under the handle's timeout. Nothing is written. |
| SimpleCtrl.CtrlHandle.Send | simple_ctrl.c:219-238 | simple_ctrl_send is SendSpec under the handle's timeout. |
| SimpleCtrl.CtrlHandle.Get | simple_ctrl.c:253-288 | simple_ctrl_get is GetSpec with the handle's id. The id is used and advanced by one even when the request cannot be formatted. |
| SimpleCtrl.CtrlHandle.Set | simple_ctrl.c:290-326 | simple_ctrl_set is SetSpec with the handle's id, and the id advances by one. |
| SimpleCtrl.Open | simple_ctrl.c:103-147 | A failed socket init gives no socket. A handle is returned exactly when select reported the socket writable and it could be set blocking again, with id 0 and the given timeout. Otherwise the socket is closed. The code never checks that the connect succeeded, so a refused connection also yields a handle, whose traffic then fails. |
| OsysmonCtrl.GetOn | src/osysmon_ctrl.c:282 | One GET on a connection returns a single word or nothing. It advances the id by one and keeps the timeout. |
| OsysmonCtrl.FetchPrefix | src/osysmon_ctrl.c:279-293 | The fetch returns values for a prefix of the variables, in their order. It returns all of them exactly when the connection survives. |
| OsysmonCtrl.FetchWords | src/osysmon_ctrl.c:279-293 | Every fetched value is one word. |
| OsysmonCtrl.FetchIds | src/osysmon_ctrl.c:279-293 | A connection that survives a fetch has used one id per variable. |
| OsysmonCtrl.FetchAll | src/osysmon_ctrl.c:279-293 | With every GET answered, there is one value per variable, in variable order. |
| OsysmonCtrl.PollLink | src/osysmon_ctrl.c:271-293 | A poll returns -1 exactly when there was no connection and reconnecting failed. It then fetched nothing and holds no connection. Otherwise it returns 0. |
| OsysmonCtrl.PollClient | src/osysmon_ctrl.c:266-295 | A poll keeps the client's name and variables. It returns -1 exactly when reconnecting fails, and then the parent gains only the client's empty node. |
| OsysmonCtrl.PollRefused | src/osysmon_ctrl.c:269-277 | A poll that cannot connect adds the client's empty node, returns -1 and leaves the client without a connection. |
| OsysmonCtrl.PollFetches | src/osysmon_ctrl.c:269-293 | A poll with a connection, kept or new, adds the client's node holding the fetched values. The connection survives exactly when the fetch does. |
| OsysmonCtrl.FetchStep | src/osysmon_ctrl.c:281-292 | A failed GET ends the fetch and drops the connection, keeping the values so far. A successful one moves on to the next variable. |
| OsysmonCtrl.PollAllEach | src/osysmon_ctrl.c:298-304 | Each client ends as its own poll leaves it, whatever the earlier clients' results. |
| OsysmonCtrl.PollAllKeeps | src/osysmon_ctrl.c:298-304 | The parent keeps the children it had, in their order. |
| OsysmonCtrl.CtrlClient.constructor | src/osysmon_ctrl.c:78-96 | A new client has the given name, host and port, no variables and no connection. |
| OsysmonCtrl.CtrlClient.FindOrCreateVar | src/osysmon_ctrl.c:105-120 | Returns the position of the existing variable, or appends it at the tail. Variables stay unique, and the connection is untouched. |
| OsysmonCtrl.CtrlClient.Poll | src/osysmon_ctrl.c:266-295 | ctrl_client_poll on the heap is PollClient on values: same result, client state and parent value. |
| OsysmonCtrl.CtrlClient.Reconnect | src/osysmon_ctrl.c:271-277 | Without a handle, a connection is opened with a 1000 ms timeout. A handle exists afterwards exactly when the connection came up. An existing handle is kept. |
| OsysmonCtrl.CtrlClient.FetchVars | src/osysmon_ctrl.c:279-293 | The GET loop adds the values Fetch computes under the client's node and returns 0. The handle is null afterwards exactly when a GET failed. |
| OsysmonCtrl.CtrlClient.FetchOne | src/osysmon_ctrl.c:280-292 | One turn of the GET loop either adds the value and goes on, or closes and nulls the handle and stops. |
| OsysmonCtrl.CtrlClient.Disconnect | src/osysmon_ctrl.c:285-289 | The failed GET's socket is closed and the handle is nulled. |
| OsysmonCtrl.CtrlClient.GetVar | src/osysmon_ctrl.c:282 | The GET over the open handle is GetOn on its connection. |
| OsysmonCtrl.GoParent | src/osysmon_ctrl.c:138-156 | GETVAR goes to CTRL_CLIENT, with the owning client as index. CTRL_CLIENT goes to CONFIG, with no index. Any other node stays. |
| OsysmonCtrl.GetVarThenUp | src/osysmon_ctrl.c:138-156 | Leaving a variable goes back to the client it was given in, and leaving that goes back to the configuration level. |
| OsysmonCtrl.CfgGetVar | src/osysmon_ctrl.c:195-208 | "get-variable" finds or creates the variable in the current client and enters it. |
| OsysmonCtrl.ClientIndexOf | src/osysmon_ctrl.c:68-76 | The first client with that name, or none exactly when no client has it. |
| OsysmonCtrl.CtrlClients.Find | src/osysmon_ctrl.c:68-76 | ctrl_client_find is ClientIndexOf on the list. |
| OsysmonCtrl.CtrlClients.Create | src/osysmon_ctrl.c:78-96 | Returns NULL and changes nothing when the name exists. Otherwise it appends a new client at the tail. |
| OsysmonCtrl.CtrlClients.Destroy | src/osysmon_ctrl.c:98-103 | Unlinks exactly that client. |
| OsysmonCtrl.CtrlClients.CfgCtrlClient | src/osysmon_ctrl.c:159-179 | An existing name with another host or port warns and changes nothing. An existing name with the same ones enters that client. A new name creates the client at the tail and enters it. |
| OsysmonCtrl.CtrlClients.CfgNoCtrlClient | src/osysmon_ctrl.c:181-193 | An unknown name warns and changes nothing. Otherwise that client is removed. |
| OsysmonCtrl.CtrlClients.PollAllClients | src/osysmon_ctrl.c:298-304 | Every client is polled in list order, results ignored, and 0 is returned. The clients' states and the parent's value are PollAll. |
| OsysmonCtrl.CtrlClients.PollOne | src/osysmon_ctrl.c:300-301 | Polling the i-th client leaves every other client and its connection as they were. |
| OsysmonSysinfo.UptimeSplits | src/osysmon_sysinfo.c:39-46 | hours < 24, minutes < 60, seconds < 60, and days*86400 + hours*3600 + minutes*60 + seconds is the uptime. |
| OsysmonSysinfo.ToMbytesRoundsDown | src/osysmon_sysinfo.c:37 | When the unit divides a megabyte, to_mbytes is the number of whole megabytes. |
| OsysmonSysinfo.UptimeFits | src/osysmon_sysinfo.c:117-120 | The uptime text always fits the 32-byte buffer. |
| OsysmonSysinfo.UptimeLayout | src/osysmon_sysinfo.c:118-119 | The uptime text is the days, "d ", then HH:MM:SS, each zero-padded to two digits. |
| OsysmonSysinfo.UptimeRoundTrip | src/osysmon_sysinfo.c:118-119 | The uptime text reads back as the uptime to the second. |
| OsysmonSysinfo.RamText | src/osysmon_sysinfo.c:112-115 | The RAM text fits the buffer. |
| OsysmonSysinfo.RamTextWhole | src/osysmon_sysinfo.c:112-115 | When the three figures fit the buffer, the RAM text is total/free/shared in megabytes. |
| OsysmonSysinfo.SysinfoReport | src/osysmon_sysinfo.c:91-123 | Disabled: nothing added, 0 returned. A failed call leaves the "sysinfo" node empty and returns the error. Otherwise the node holds load, ram and uptime, in that order. |
| OsysmonSysinfo.Sysinfo.constructor | src/osysmon_sysinfo.c:48 | The source starts enabled. |
| OsysmonSysinfo.Sysinfo.CfgSysinfo | src/osysmon_sysinfo.c:55-62 | "sysinfo" enables the source. |
| OsysmonSysinfo.Sysinfo.CfgNoSysinfo | src/osysmon_sysinfo.c:64-71 | "no sysinfo" disables the source. |
| OsysmonSysinfo.Sysinfo.Poll | src/osysmon_sysinfo.c:91-123 | The poll on the heap is SysinfoPoll on values. |
| OsysmonSysinfo.AddFigures | src/osysmon_sysinfo.c:107-120 | The three adds put load, ram and uptime under the "sysinfo" node, in that order. |
| OsysmonFile.Fgets | src/osysmon_file.c:83 | fgets returns a prefix of at most 511 bytes. It stops after the first newline, and it is empty exactly when the file is. |
| OsysmonFile.ReadFile | src/osysmon_file.c:72-93 | The read is FileValue: <NOTFOUND> for a missing file, <EMPTY> for no line, and otherwise the first line without its newlines. |
| OsysmonFile.FileShowsFirstLine | src/osysmon_file.c:83-92 | A first line that fits the buffer and holds no NUL shows as itself, with or without a newline after it. |
| OsysmonFile.FileValueBounded | src/osysmon_file.c:83-92 | The leaf never holds a newline and fits the buffer. |
| OsysmonFile.Readings | src/osysmon_file.c:151-157 | One reading per watcher, in list order. |
| OsysmonFile.FilePollReport | src/osysmon_file.c:146-160 | With distinct watcher names and no "file" node yet, the parent gains a "file" node with one leaf per watcher, in order. |
| OsysmonFile.FileWatchers.Find | src/osysmon_file.c:40-49 | The first watcher with that name. |
| OsysmonFile.FileWatchers.Add | src/osysmon_file.c:51-64 | Refused exactly when the name exists. Otherwise the watcher is appended at the tail. |
| OsysmonFile.FileWatchers.Destroy | src/osysmon_file.c:66-70 | Unlinks exactly that watcher. |
| OsysmonFile.FileWatchers.CfgFile | src/osysmon_file.c:100-111 | A taken name warns and changes nothing. Otherwise the watcher is added. |
| OsysmonFile.FileWatchers.CfgNoFile | src/osysmon_file.c:113-125 | An unknown name warns and changes nothing. Otherwise that watcher is removed. |
| OsysmonFile.FileWatchers.Poll | src/osysmon_file.c:146-160 | The poll on the heap is FilePoll on values, and it returns 0. |
| OsysmonFile.FileWatchers.ReadOne | src/osysmon_file.c:153-156 | One turn of the loop adds the i-th watcher's reading. |
| OsysmonShellcmd.Fread | src/osysmon_shellcmd.c:94-97 | fread gives the next bytes of the output, fewer than asked only at its end. |
| OsysmonShellcmd.Collected | src/osysmon_shellcmd.c:94-97 | The buffer holds a prefix of the output of at most 511 bytes, and all of it when it fits. |
| OsysmonShellcmd.RunCommand | src/osysmon_shellcmd.c:80-108 | The run is RunValue: the popen failure text, <EMPTY> for no output, and otherwise the output with one trailing newline dropped. |
| OsysmonShellcmd.RunShowsLine | src/osysmon_shellcmd.c:101-104 | Output printed with a final newline shows without it. |
| OsysmonShellcmd.RunShowsText | src/osysmon_shellcmd.c:101-104 | Output without a final newline shows as printed. |
| OsysmonShellcmd.RunEmpty | src/osysmon_shellcmd.c:101-106 | No output shows as <EMPTY>. A lone newline shows as the empty string. |
| OsysmonShellcmd.RunValueBounded | src/osysmon_shellcmd.c:94-97 | The value always fits the buffer. |
| OsysmonShellcmd.Outputs | src/osysmon_shellcmd.c:168-171 | One output per command, in list order. |
| OsysmonShellcmd.ShellcmdPollReport | src/osysmon_shellcmd.c:163-174 | With distinct names and no "shellcmd" node yet, the parent gains a "shellcmd" node with one leaf per command, in order. |
| OsysmonShellcmd.CommandLineWords | src/osysmon_shellcmd.c:120 | The joined command line splits back at its spaces into the words. |
| OsysmonShellcmd.ShellCmds.Find | src/osysmon_shellcmd.c:48-57 | The first command with that name. |
| OsysmonShellcmd.ShellCmds.Add | src/osysmon_shellcmd.c:59-72 | Refused exactly when the name exists. Otherwise the command is appended at the tail. |
| OsysmonShellcmd.ShellCmds.Destroy | src/osysmon_shellcmd.c:74-78 | Unlinks exactly that command. |
| OsysmonShellcmd.ShellCmds.CfgShellcmd | src/osysmon_shellcmd.c:115-128 | A taken name warns and changes nothing. Otherwise the command with its joined line is added. |
| OsysmonShellcmd.ShellCmds.CfgNoShellcmd | src/osysmon_shellcmd.c:130-142 | An unknown name warns and changes nothing. Otherwise that command is removed. |
| OsysmonShellcmd.ShellCmds.Poll | src/osysmon_shellcmd.c:163-174 | The poll on the heap is ShellcmdPoll on values, and it returns 0. |
| OsysmonShellcmd.ShellCmds.RunOne | src/osysmon_shellcmd.c:168-171 | One turn of the loop adds the i-th command's output. |
| OsysmonRtnl.FlagText | src/osysmon_rtnl.c:216-224 | "true" exactly when the flag is set, and "false" otherwise. |
| OsysmonRtnl.HwaddrShows | src/osysmon_rtnl.c:210-215 | The hardware address fits its buffer. Split at ':' it gives six pieces: each byte's two hex digits in order, which read back as the byte. |
| OsysmonRtnl.IpShows | src/osysmon_rtnl.c:307-312 | The address fits its buffer. Split at '/' and '.' it gives the four bytes and the prefix length. |
| OsysmonRtnl.LinkShows | src/osysmon_rtnl.c:188-227 | A message without a name, or for an unconfigured device, adds nothing. A configured device not shown yet gets a node keyed by its index, holding hwaddr (only for 6 bytes), running and up. |
| OsysmonRtnl.FreshInterface | src/osysmon_rtnl.c:206-224 | A new interface node carries the index, then hwaddr when present, then running and up. |
| OsysmonRtnl.AddrShows | src/osysmon_rtnl.c:299-312 | An IPv4 address for the interface of a keyed node adds its "ip" leaf when that node has none yet. |
| OsysmonRtnl.AddrIgnored | src/osysmon_rtnl.c:299-305 | A message for an unknown index, of another family, or without an address changes nothing. |
| OsysmonRtnl.OnlyConfigured | src/osysmon_rtnl.c:198-204 | Every node under "netdev" is named after a configured device. |
| OsysmonRtnl.Rtnl.Find | src/osysmon_rtnl.c:48-56 | The first device with that name. |
| OsysmonRtnl.Rtnl.Create | src/osysmon_rtnl.c:58-71 | Refused exactly when the name exists. Otherwise the device is appended at the tail. |
| OsysmonRtnl.Rtnl.Destroy | src/osysmon_rtnl.c:73-77 | Unlinks exactly that device. |
| OsysmonRtnl.Rtnl.CfgNetdev | src/osysmon_rtnl.c:102-113 | "netdev" is find-or-create and always succeeds. |
| OsysmonRtnl.Rtnl.CfgNoNetdev | src/osysmon_rtnl.c:115-127 | An unknown name warns and changes nothing. Otherwise that device is removed. |
| OsysmonRtnl.Rtnl.Poll | src/osysmon_rtnl.c:395-414 | The socket is opened lazily. The poll on the heap is RtnlPoll on values: nothing and 0 without devices, an empty "netdev" node and -1 when init fails, and otherwise the dumps. |
| OsysmonRtnl.Rtnl.LinkDump | src/osysmon_rtnl.c:229-263 | The link dump applies data_cb to each message in order. |
| OsysmonRtnl.Rtnl.LinkOne | src/osysmon_rtnl.c:188-227 | data_cb on the heap is LinkEffect on values. |
| OsysmonRtnl.Rtnl.AddrDump | src/osysmon_rtnl.c:317-352 | The address dump applies inet_data_cb to each message in order. |
| OsysmonRtnl.Rtnl.AddrOne | src/osysmon_rtnl.c:292-315 | inet_data_cb on the heap is AddrEffect on values. |
| OsysmonRtnl.NetdevGoParent | src/osysmon_rtnl.c:89-100 | From a device back to the configuration node with no index. Any other node stays. |
| OsysmonOpenvpn.OpenVpnClient.ParseState | src/osysmon_openvpn.c:62-104 | parse_state is ParseEffect: an empty message, or one not starting with a digit, changes nothing. Otherwise the first 127 bytes are cut at the NUL and split by strtok, and at most six tokens are applied. |
| OsysmonOpenvpn.OpenVpnClient.ParseTokens | src/osysmon_openvpn.c:84-102 | The strtok loop applies the first min(6, n) tokens. |
| OsysmonOpenvpn.OpenVpnClient.ApplyOne | src/osysmon_openvpn.c:87-100 | Token 1 sets the status, 3 the tunnel, 4 the remote host and 5 the port (atoi). The other tokens are ignored. |
| OsysmonOpenvpn.ParseLine | src/osysmon_openvpn.c:68-84 | A line that fits the buffer and holds no NUL is parsed whole. |
| OsysmonOpenvpn.TokensOfLine | src/osysmon_openvpn.c:84 | strtok on a comma-separated line gives back its non-empty fields. |
| OsysmonOpenvpn.StateAnswer | src/osysmon_openvpn.c:84-100 | A full state answer sets the status to field 1, the tunnel to field 3 and the remote end to fields 4 and 5. |
| OsysmonOpenvpn.EmptyFieldShifts | src/osysmon_openvpn.c:84-100 | An empty description field collapses, and the later fields move down by one. |
| OsysmonOpenvpn.OpenVpnClient.ConnectCb | src/osysmon_openvpn.c:132-140 | connect_cb sets connected and the status. |
| OsysmonOpenvpn.OpenVpnClient.DisconnectCb | src/osysmon_openvpn.c:118-130 | disconnect_cb clears connected, the tunnel and the remote host. |
| OsysmonOpenvpn.DisconnectedShows | src/osysmon_openvpn.c:118-130 | After a disconnect a poll shows only the status. |
| OsysmonOpenvpn.ConnectedShows | src/osysmon_openvpn.c:132-140 | After a connect, the status comes first and the tunnel is kept. |
| OsysmonOpenvpn.OpenVpnClient.ReadCb | src/osysmon_openvpn.c:142-161 | A received message is parsed. A failed allocation or read changes nothing. |
| OsysmonOpenvpn.OpenVpnClient.constructor | src/osysmon_openvpn.c:169-181 | A new client has the configuration, the status "connecting", no remote end and no connection. |
| OsysmonOpenvpn.IndexOfInterface | src/osysmon_openvpn.c:106-116 | The first client with that host and port, or none exactly when there is none. |
| OsysmonOpenvpn.OpenVpnClients.FindOrMake | src/osysmon_openvpn.c:106-116 | find_or_make is IndexOfInterface on the list. |
| OsysmonOpenvpn.OpenVpnClients.Create | src/osysmon_openvpn.c:163-208 | An existing interface gives true and changes nothing. Otherwise, if startup succeeds, a new client is appended. If it fails, the result is false and nothing changes. |
| OsysmonOpenvpn.OpenVpnClients.Destroy | src/osysmon_openvpn.c:210-218 | Unlinks exactly that client. |
| OsysmonOpenvpn.OpenVpnClients.CfgOpenvpn | src/osysmon_openvpn.c:227-239 | The port is atoi cut to 16 bits. A failed create warns, and otherwise the command succeeds. |
| OsysmonOpenvpn.OpenVpnClients.CfgNoOpenvpn | src/osysmon_openvpn.c:241-255 | An unknown interface warns and changes nothing. Otherwise that client is removed. |
| OsysmonOpenvpn.OpenVpnClient.Poll | src/osysmon_openvpn.c:262-287 | The poll on the heap is ClientEffect on values. A state command goes out exactly when its buffer was allocated and the client is connected. |
| OsysmonOpenvpn.ClientShows | src/osysmon_openvpn.c:262-279 | A client without a node gets a new node at the end, named host:port, with its leaves. |
| OsysmonOpenvpn.FreshLeaves | src/osysmon_openvpn.c:266-279 | A new node holds exactly the status, tunnel and remote leaves that are present, or the allocation failure leaf. |
| OsysmonOpenvpn.HostNameInjective | src/osysmon_openvpn.c:264-265 | Different management interfaces give different node names. |
| OsysmonOpenvpn.ClientsShow | src/osysmon_openvpn.c:305-306 | Clients at distinct interfaces each get their own node, in list order. |
| OsysmonOpenvpn.OpenvpnShows | src/osysmon_openvpn.c:299-310 | The poll returns the client count. The parent gains an "OpenVPN" node at the end, with one node per client. |
| OsysmonOpenvpn.OpenVpnClients.Poll | src/osysmon_openvpn.c:299-310 | The poll on the heap is OpenvpnPoll on values. The i-th state command goes out as allocation and connection say. |
| OsysmonOpenvpn.OpenVpnClients.PollClients | src/osysmon_openvpn.c:305-306 | The loop polls each client into the "OpenVPN" node in list order. |
| OsysmonMain.OsysmonGoParent | src/osysmon_main.c:41-49 | Only CTRL client and variable nodes are handed to the ctrl go-parent. Every other node stays. |
| OsysmonMain.IsConfigNode | src/osysmon_main.c:51-58 | Every node is a configuration node. |
| OsysmonMain.VisitsIndent | src/osysmon_main.c:84-91 | Every node reached is indented by the start plus an even number of columns. |
| OsysmonMain.Spaces | src/osysmon_main.c:81-82 | The indent is exactly n blanks. |
| OsysmonMain.PrintNodeWalks | src/osysmon_main.c:76-92 | print_node writes exactly one line per node of the pre-order walk, in walk order. |
| OsysmonMain.PrintNodeIndented | src/osysmon_main.c:76-92 | Every line starts with at least the indent's blanks and ends with a newline. |
| OsysmonMain.LinesAt | src/osysmon_main.c:80-88 | The k-th line is "name: value" for a node with a value, and the name otherwise, after the visit's indent. |
| OsysmonMain.DisplayUpdate | src/osysmon_main.c:94-97 | The report is the root's walk from indent 0, and its first line is the root's. |
| OsysmonMain.SysinfoStage | src/osysmon_main.c:232-233 | A fresh "root" has no value. Sysinfo adds nothing when disabled, and otherwise a single "sysinfo" node. |
| OsysmonMain.PollCycle | src/osysmon_main.c:231-241 | A cycle keeps the configuration and the number of CTRL clients. |
| OsysmonMain.CycleOrder | src/osysmon_main.c:232-236 | The root is "root" with no value. Each source's nodes come after those of the sources polled before it, sysinfo first. |
| OsysmonMain.RestOrder | src/osysmon_main.c:234-236 | After sysinfo, ctrl, rtnl and file each keep the children the earlier sources added. |
| OsysmonMain.NetdevAfterCtrl | src/osysmon_main.c:234-235 | With devices configured, the "netdev" node comes right after the CTRL clients' nodes. |
| OsysmonMain.FileLast | src/osysmon_main.c:235-236 | With files watched, the "file" node is the root's last child, whether or not rtnl failed. |
| OsysmonMain.FailuresIgnored | src/osysmon_main.c:233-236 | However sysinfo's call turns out, the CTRL clients, the socket and every node after "sysinfo" come out the same. |
| OsysmonMain.PollAllAgrees | src/osysmon_main.c:234 | The CTRL polls do the same whatever the earlier nodes hold. |
| OsysmonMain.CycleReport | src/osysmon_main.c:238 | Every cycle's report starts with "root". |
| OsysmonMain.Turn | src/osysmon_main.c:231-241 | One turn keeps the configuration. A fitting input prints a report starting with "root". |
| OsysmonMain.LoopPrefix | src/osysmon_main.c:231-241 | The first m turns' output does not depend on later inputs. |
| OsysmonMain.LoopAt | src/osysmon_main.c:231-241 | Turn k prints what one turn prints from the state the first k turns left. |
| OsysmonMain.LoopKeeps | src/osysmon_main.c:231-241 | An invariant every turn keeps holds after any number of turns. |
| OsysmonMain.RunKeeps | src/osysmon_main.c:231-241 | Any number of cycles keeps the configuration and the number of CTRL clients. |
| OsysmonMain.RunReportsRoot | src/osysmon_main.c:231-241 | Every cycle prints a report starting with "root", whatever the sources returned. |
| OsysmonMain.Cycle | src/osysmon_main.c:232-239 | The loop body on the heap has the sources end as PollCycle says and prints DisplayUpdate of PollCycle's root. The root and everything below it are freed. |
| OsysmonMain.PollSources | src/osysmon_main.c:233-236 | The four polls on the heap give PollCycle's sources and root. |
| OsysmonMain.Free | src/osysmon_main.c:239 | Deleting the root changes no source. |
| OsysmonMainLegacy.PrintValuesWalks | osysmon_main.c:76-85 | The first print_node writes one line for each node of the walk that carries a value, in walk order, and nothing for the others. |
| OsysmonMainLegacy.ValuedHas | osysmon_main.c:78-84 | A line is printed exactly when a visited node with a value has that "name: value" line. |
| OsysmonMainLegacy.LegacyDisplay | osysmon_main.c:87-90 | The report is the valued lines of the root's walk. |
| OsysmonMainLegacy.LegacyShowsValues | osysmon_main.c:78-79 | Only nodes with a value produce output, and every one the walk reaches does. |
| OsysmonMainLegacy.LegacyLineIsUnindented | osysmon_main.c:79 | The later printer's line for a valued node is the first printer's line after the indent. |
| OsysmonMainLegacy.LegacyPoll | osysmon_main.c:137-145 | A cycle changes only the CTRL clients and keeps their number. |
| OsysmonMainLegacy.LegacyOrder | osysmon_main.c:138-140 | The root is "root" with no value, sysinfo's node first, then the CTRL clients'. |
| OsysmonMainLegacy.LaterCycleExtends | osysmon_main.c:137-145 | With no devices and no files, the later cycle is exactly the first one. |
| OsysmonMainLegacy.LegacyQuiet | osysmon_main.c:137-145 | With sysinfo off and no clients the first form prints nothing, while the later one prints the root. |
| OsysmonMainLegacy.LegacyTurn | osysmon_main.c:137-145 | One turn changes only the CTRL clients. |
| OsysmonMainLegacy.LegacyRunKeeps | osysmon_main.c:137-145 | However many cycles run, only the CTRL clients change, and their number stays. |
| OsysmonMainLegacy.LegacyRunReports | osysmon_main.c:137-145 | Cycle k prints the valued lines of the root sysinfo and ctrl build from the clients the first k cycles left. |
| OsysmonMainLegacy.LegacyCycle | osysmon_main.c:138-143 | The loop body on the heap has the sources end as LegacyPoll says and prints LegacyDisplay of its root. The root is freed. |
| OsysmonMainLegacy.LegacyFree | osysmon_main.c:143 | Deleting the root changes neither the clients nor sysinfo's switch. |

## Left out

- I/O is not modelled. The sockets, select, read and write of the CTRL client, the files, the pipes and the sysinfo call are replaced by inputs: a script of receive events, a script of write outcomes, file contents, command outputs and sysinfo results.
- Connection setup outcomes are inputs too. That covers osmo_sock_init, the connect wait of simple_ctrl_open and make_tcp_client.
- talloc memory management is not modelled. Allocation failures are modelled only in three places of the OpenVPN source: read_cb's receive buffer (src/osysmon_openvpn.c:146, `allocOk` of OsysmonOpenvpn.OpenVpnClient.ReadCb), the client and host configurations openvpn_client_create allocates (src/osysmon_openvpn.c:169-179, folded into `startOk` of OsysmonOpenvpn.OpenVpnClients.Create), and openvpn_client_poll's state command buffer (src/osysmon_openvpn.c:266, the `allocs` of OsysmonOpenvpn.OpenVpnClients.Poll). The leaked first allocation in value_node.c:33 is not modelled.
- SimpleCtrl.CtrlHandle.Get and SimpleCtrl.CtrlHandle.Set: they assume msgb_alloc_headroom succeeds (simple_ctrl.c:255-262, 292-299). When it fails, the code returns before next_id is advanced; the model always advances it.
- The other allocations of the CTRL client are assumed to succeed: msgb_alloc in simple_ipa_receive (simple_ctrl.c:176-178), apart from the 16-bit size wrap described below, and talloc_zero in simple_ctrl_open (simple_ctrl.c:137-139).
- The "no get-variable" command (src/osysmon_ctrl.c:210-220) is not modelled. It frees a variable that is still linked into the client's list.
- The VTY machinery is not modelled: install_element, the node definitions and osysmon_ctrl_config_write. The commands themselves are methods that return the command result.
- Not modelled from either main: option handling, logging, signal handlers, daemonizing and `sleep(1)`.
- The main loop runs forever. The model runs it for any finite number of cycles, one input per cycle (`Run`, `LegacyRun`).
- The netlink plumbing is not modelled: rtnl_init's sockets, the receive loops of rtnl_update_link and rtnl_update_addr, and the attribute checks of if_attr_cb and inet_attr_cb. data_cb and inet_data_cb get already-parsed messages. rtnl_init's success is an input.
- OsysmonRtnl.Rtnl.LinkDump and OsysmonRtnl.Rtnl.AddrDump: they assume the dump request always goes out. When mnl_socket_sendto fails, rtnl_update_link and rtnl_update_addr end the whole program with exit(EXIT_FAILURE) (src/osysmon_rtnl.c:246-249, 334-337), and that exit is not modelled.
- The OpenVPN stream client is not modelled: the reconnect timer and the callbacks' wiring. connect, disconnect and read are methods the environment calls.
- src/osysmon_ping.c is not part of this model. It wraps liboping, and its latency is a floating-point value.
- OsysmonSysinfo.SysinfoReport: the load averages are floating-point text ("%.2f"). They are an input, cut to the buffer like the code's snprintf.
- OsysmonSysinfo.ToMbytesRoundsDown: to_mbytes requires a mem_unit of at most one megabyte. A larger unit divides by zero in the code.
- The header files serve only for types and constants, apart from the top-level osysmon.h noted under OsysmonMainLegacy.LegacyCycle. osmo-ctrl-client.c, a command-line front end, is not part of this model.
- Leaf/internal exclusivity is not claimed. value_node_add never checks whether the parent has a value.
- SimpleCtrl.IpaReceiveSpec: a header announcing 65533 to 65535 bytes wraps msgb_alloc's 16-bit size (simple_ctrl.c:176), and msgb_put then aborts the process (simple_ctrl.c:179). The model ends that receive with a failure instead, after the header is read. SimpleCtrl.IpaRoundTrip is stated only for frames whose size fits.
- SimpleCtrl.GetSpec and SimpleCtrl.SetSpec: they read the reply as text that ends with the CTRL payload. The code scans on past the received bytes until it meets a NUL (see "## Findings"). SimpleCtrl.ReplyTextAsWritten models that reading, and the request functions and the sources above them do not use it.
- SimpleCtrl.GetAnswered and SimpleCtrl.SetAnswered: they hold for the code as written only when the bytes past the frame begin with a NUL or white space (SimpleCtrl.GetAnsweredAsWritten, SimpleCtrl.SetAnsweredAsWritten).
- OsysmonRtnl.Rtnl.Poll and OsysmonOpenvpn.OpenVpnClients.Poll: they require that the parent has no "netdev" (respectively "OpenVPN") child yet whenever the source goes on to poll into that node. With one, value_node_add returns NULL and the NULL node is used as the parent of value_node_find_or_add (src/osysmon_rtnl.c:405-411 and 206; src/osysmon_openvpn.c:265, reached from osysmon_openvpn_poll), which dereferences it, so the program crashes. That case is not modelled.
- OsysmonMain.Cycle: requires that no CTRL client is named "netdev". With such a client, value_node_add of the rtnl source's "netdev" node returns NULL, and osysmon_rtnl_poll passes that NULL on as the parent of the link and address dumps (src/osysmon_rtnl.c:405-411). The first configured link then makes data_cb call value_node_find_or_add on NULL (src/osysmon_rtnl.c:206), and value_node_find dereferences it (value_node.c:55-59), so the program crashes. That case is not modelled.
- OsysmonMain.Turn: an input that does not fit the sources changes nothing and prints nothing. main never meets such an input.
- OsysmonMain.FailuresIgnored: covers a different outcome of the sysinfo call only, not of every source. PollAllAgrees, RestAgrees and PollAllEach cover the later sources.
- OsysmonMainLegacy.LegacyCycle: the first form uses the same sysinfo and ctrl sources as the later one. The top-level osysmon.h declares a `struct osysmon_state` without the CTRL client list (osysmon.h:49-54), yet the top-level osysmon_main.c initialises `g_oss->ctrl_clients` (osysmon_main.c:121) and its ctrl poll walks that list. The model therefore takes the state of src/osysmon.h, which holds the list.
- OsysmonOpenvpn.OpenVpnClient.ParseState: update_name and update_host are not part of this model. They are assumed to set the status and the remote host.
- OsysmonFile.FilePollReport and OsysmonShellcmd.ShellcmdPollReport: stated for watchers and commands with distinct names. Two with the same name would add one leaf only, and the list commands prevent that case.

## Findings

| source | as written | input that shows it | evidently intended | confidence | as-written member | corrected member |
|---|---|---|---|---|---|---|
| simple_ctrl.c:206-211 | simple_ctrl_receive tests the extension byte at l2h without checking that the payload holds a byte. For an empty Osmocom frame that byte lies past the received data. | An IPA frame with length 0 and protocol 0xEE, when the byte past it is 0x00. The frame is taken as a CTRL message whose text starts past its end. | An empty Osmocom frame is not a CTRL frame. It is discarded like any other non-CTRL frame. | not executed | SimpleCtrl.EmptyFrameAcceptedAsWritten | SimpleCtrl.CtrlPayload |
| simple_ctrl.c:249-250, 273, 310 | The received payload is not NUL-terminated: simple_ipa_receive allocates exactly the frame (simple_ctrl.c:176-189), and a FIXME marks the missing check. sscanf then reads the reply on past the received bytes. | A CTRL frame carrying "GET_REPLY 5 v val" with no NUL, followed in memory by the bytes "xyz" and a NUL. simple_ctrl_get returns "valxyz" instead of "val", and a SET_REPLY echoing "val" is refused. | The reply is the text of the payload and ends where the payload ends. | not executed | SimpleCtrl.GetOverrunAsWritten | SimpleCtrl.ReplyText |
