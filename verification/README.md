# Verified models of OpenVAS library and web server code

This project models the parts of the OpenVAS C code that keep state or do arithmetic, in Dafny,
and proves what they promise. `dafny verify dfyconfig.toml` checks everything.

Code that changes things in place is modelled in place (classes, arrays, loops) and proved against
functions on values; the theorems about whole runs and about meanings are stated on those functions.

| part | on values | in place |
|---|---|---|
| messages between processes (`misc/network.c`) | `Ipc`, `IpcSystem` | `IpcCalls` |
| buffered stream reader and lines (`misc/network.c`) | `Buffering`, `Lines` | `Connections` |
| table of stream descriptors (`misc/network.c`) | `Descriptors` | `Descriptors` |
| argument lists and shared name cache (`misc/arglists.c`) | `ArgTrees` | `NameCache`, `Arglists`, `ArgStore` |
| target hosts (`base/openvas_hosts.c`) | `Addresses`, `Ipv6`, `HostText`, `HostLists` | `Ipv6`, `Hosts` |
| port lists (`base/openvas_networking.c`, `misc/scanners_utils.c`) | `PortText`, `PortAgreement`, `PortPlaces` | `Ports`, `PortArrays` |
| knowledge base (`misc/kb.c`) | `KbLists` | `Kb` |
| session table (`gsad.c`) | `Sessions` | `SessionCalls` |
| Internet checksum (`misc/ids_send.c`) | `Checksum` | `Checksum` |
| CVSS base score (`base/cvss.c`) | `Cvss` | `CvssCalls` |

`Bytes`, `Options`, `Seqs` and `Text` hold what several parts share.

What the model assumes of the outside is explicit. A socket is a queue of bytes and a script that
says, call by call, how much `send` and `recv` move, whether a signal interrupts them, or whether
they fail; every script is covered. Random indices, clock readings, new identifiers, the answers of
the name service and of the allocator, the pattern matcher, GLib's string hash and the IPv6 text
functions are parameters. Of the IPv6 text functions only this is used: addresses have 16 bytes and
a colon in their text, and survive printing; for the texts of IPv6 ranges also that no address has a
hyphen or a slash in it.

## Where the code does less than it seems to

Each of these is proved, mostly with the exact condition under which the code does what is meant.

- A resize in `stream_set_buffer` never stores the pointer `realloc` returns (network.c:2443-2450),
  so the connection is left with a freed buffer when the block moves: `Buffering.SetBufferSafeIff`.
- A read of length 0 over buffered bytes fills the buffer on top of them (network.c:1548-1589):
  `Buffering.ReadSafeIff`.
- `recv_line` is documented as always terminating its result; a line cut short by a silent stream is
  not terminated (network.c:2196-2198). Whether the line comes whole is settled by buffer, script and
  timeout before the call: `Connections.Connection.RecvLine`; a stream on which it does not:
  `Connections.Connection.UnterminatedPiece`.
- Releasing a stream descriptor that is already free closes descriptor 0, because free slots are
  zeroed (network.c:221-256): `Descriptors.ReleaseClosesZeroIff`, `Descriptors.SocketsAreAccountedFor`.
- `internal_recv` writes no terminator when the announced length is 0 or less:
  `IpcCalls.InternalRecv`, `IpcCalls.TerminatedIff`, and, for a buffer that keeps what was in it,
  `IpcCalls.EmptyTextKeepsTheBuffer`.
- The host enumeration loops do not end for a range up to the all-ones address, unless a maximum
  stops them: `HostLists.Enumeration4EndsIff`, `HostLists.Enumeration6EndsIff`; texts that mean such
  ranges: `HostLists.RunawayExample`, `HostLists.RunawayText`, `HostLists.RunawayText6`.
- A prefix length with leading zeros is checked as one number and read as another:
  `HostText.PrefixTextIff`; "/024" is read as "/2": `HostText.LeadingZeroText`.
- `arg_dup` turns a NULL nested list into an empty one and drops values of unknown types:
  `ArgTrees.CopyEqualIff`.
- `getpts` drops the elements before the first "T:" and after the next "U:", and reads a later "T:" as
  the number 0, so it need not give the TCP ports of `port_range_ranges`: exactly when it does,
  `PortPlaces.AgreeIff` and `PortPlaces.PlacesDecide`; even canonical texts of two ports are read
  differently, `PortPlaces.TwoPortsDiffer`.
- Mixing adding and setting can leave a value twice in the knowledge base:
  `KbLists.SetKeepsUniqueIff`, `KbLists.MixedCallsDuplicate`.
- `user_find` documents a code 3 for a bad cookie and a code 1 for a bad token; line 375 overwrites
  the one and nothing assigns the other: `Sessions.DocumentedCodeIff`, `Sessions.OtherwiseExpired`,
  `Sessions.BadCookieAndToken`.
- The two folds of `in_cksum` are enough for every buffer of up to 131076 bytes, and not for one of
  131077: `Checksum.TwoFoldsSuffice`, `Checksum.OneByteLonger`.
- A malformed CVSS vector can be accepted, because strtok runs over the slash that ends a segment
  without a colon: `Cvss.SegmentsReadAloneIff`, `Cvss.StrayVectors`.
- The CVSS documentation rounds the score to one decimal (cvss.c:35); the code does not, and no score
  but 0 happens to be a multiple of 0.1: `Cvss.ScoreIsRoundIff`, `Cvss.BaseScoreIsRoundIff`,
  `Cvss.PartialIsNotRound`.

## Model

| member | source | states |
|---|---|---|
| Ipc.FrameSelfDelimiting | openvas-libraries-7.0.10/misc/network.c:2506-2611 | A receiver that asks for bytes as internal_recv does never asks beyond the frame of one message, and stops exactly at its end |
| Ipc.FrameRoundTrip | openvas-libraries-7.0.10/misc/network.c:2506-2611 | The type and first len bytes read from a frame are those sent; a control message arrives without its text |
| Ipc.AckBytes | openvas-libraries-7.0.10/misc/network.c:2598-2602 | The acknowledgement is the control type with the acknowledgement bit as four bytes of memory |
| IpcCalls.WritingSplits | openvas-libraries-7.0.10/misc/network.c:2457-2474 | However send splits a write, and whatever interrupts it, the process ends where one undivided write leaves it; a failure midway is a failure |
| IpcCalls.ReadingSplits | openvas-libraries-7.0.10/misc/network.c:2476-2493 | The same for a read split by recv |
| IpcCalls.Socket.OsSend | openvas-libraries-7.0.10/misc/network.c:2457-2474 | Writes the whole buffer whatever pieces send takes, retrying after signals; -1 comes only after a fault or the end of the script; the process has then written exactly those bytes |
| IpcCalls.Socket.OsRecv | openvas-libraries-7.0.10/misc/network.c:2476-2493 | Fills exactly the bytes asked for from the front of the stream, in order, and nothing after them; -1 comes only after a fault, or where the script or the stream ends |
| IpcCalls.InternalSend | openvas-libraries-7.0.10/misc/network.c:2506-2541 | Returns 0 exactly when the process wrote the whole frame of the message and then read a whole acknowledgement; NULL data is the empty text |
| IpcCalls.ReadText | openvas-libraries-7.0.10/misc/network.c:2572-2596 | Reads length and text from the front of the stream into the caller's buffer, or a new one when it is missing or too small; puts a NUL behind the text exactly when the length is positive, and otherwise leaves the buffer as it was |
| IpcCalls.InternalRecv | openvas-libraries-7.0.10/misc/network.c:2551-2611 | On success exactly one frame is gone from the stream, its type and text are delivered, and one acknowledgement is written; on failure returns -1 and a NULL buffer, which happens only when the stream holds no whole message or the calls stop |
| IpcCalls.FrameComplete | openvas-libraries-7.0.10/misc/network.c:2551-2611 | What internal_recv took is where the reading automaton stops, and decodes to the message delivered |
| IpcCalls.TerminatedIff | openvas-libraries-7.0.10/misc/network.c:2572-2596 | On return a positive length has a NUL behind the text; in the caller's buffer there is one exactly when the length is positive or the buffer began with one |
| IpcCalls.EmptyTextKeepsTheBuffer | openvas-libraries-7.0.10/misc/network.c:2572-2596 | A message with an empty text is received and the caller's two bytes stay as they were |
| IpcCalls.ReceiveOne | openvas-libraries-7.0.10/misc/network.c:2551-2611 | One call on a stream that starts with a frame delivers that message and leaves what follows the frame, unless a fault or the end of the script stops it |
| IpcCalls.ReceiveAll | openvas-libraries-7.0.10/misc/network.c:2551-2611 | Calling it once per message gives the messages in order and leaves the rest of the stream, unless a call is stopped |
| IpcSystem.InvStep | openvas-libraries-7.0.10/misc/network.c:2457-2611 | Every send, recv, signal or failure of either process keeps the stop-and-wait invariant of the two processes and the bytes in flight |
| IpcSystem.InvAlways | openvas-libraries-7.0.10/misc/network.c:2457-2611 | The invariant holds after every run |
| IpcSystem.Safety | openvas-libraries-7.0.10/misc/network.c:2457-2611 | After every run, failures included: received is a prefix of sent, a send that returned 0 was received, one frame or one acknowledgement at most is in flight |
| IpcSystem.NoDeadlock | openvas-libraries-7.0.10/misc/network.c:2457-2611 | While both processes are up, some call can move bytes exactly when not everything is delivered and acknowledged |
| IpcSystem.StepProgress | openvas-libraries-7.0.10/misc/network.c:2457-2611 | Each call lowers the bytes still to move by exactly the bytes it moves, so no run moves bytes for ever |
| IpcSystem.EverythingArrives | openvas-libraries-7.0.10/misc/network.c:2457-2611 | Bytes moved and bytes to move add up to a constant over every run; a run with nothing left to do has delivered every message |
| Buffering.ReadConserves | openvas-libraries-7.0.10/misc/network.c:1534-1593 | One read returns bytes and leaves a buffer that together are the old buffer followed by what the transport gave; at most max_len bytes |
| Buffering.ReadSafeIff | openvas-libraries-7.0.10/misc/network.c:1534-1593 | That holds for every answer of the transport exactly when max_len is positive, or nothing is buffered, or the read bypasses the buffer |
| Buffering.ReadReturnsSomething | openvas-libraries-7.0.10/misc/network.c:1534-1593 | A read with room for a byte returns nothing exactly when both buffer and transport have nothing |
| Buffering.SetBufferConserves | openvas-libraries-7.0.10/misc/network.c:2408-2450 | Growing, shrinking, removing or failing to resize keeps the buffered bytes; success sets the size asked for |
| Buffering.SetBufferSafeIff | openvas-libraries-7.0.10/misc/network.c:2443-2450 | The buffer stays usable whatever the allocator does exactly when no buffer is resized: the pointer realloc returns is never stored |
| Buffering.RunConserves | openvas-libraries-7.0.10/misc/network.c:1534-1593 | Over every run of reads and buffer changes, bytes returned followed by bytes buffered are the bytes taken from the transport |
| Connections.Connection.ReadUnbuffered | openvas-libraries-7.0.10/misc/network.c:1335-1532 | Takes a prefix of the stream of at most max_len bytes; fewer than a positive min_len, or with room nothing at all, only with an error set and because the connection broke, ended or was silent for the timeout; with room it returns nothing exactly when script and timeout let nothing be reached |
| Connections.Connection.TakeBuffered | openvas-libraries-7.0.10/misc/network.c:1548-1564 | Hands out bytes from the front of the buffer and moves count and pointer on |
| Connections.Connection.Refill | openvas-libraries-7.0.10/misc/network.c:1575-1589 | Fills the buffer from the transport and hands out the front of it; a short fill has an error and one of these reasons |
| Connections.Connection.ReadMin | openvas-libraries-7.0.10/misc/network.c:1534-1593 | In place, the read leaves the buffer, the caller's memory and the transport exactly as the value model says; it returns fewer than a positive min_len, or with room nothing, only with an error set and for one of these reasons, and nothing exactly when nothing is buffered or can be reached |
| Connections.Connection.SetBuffer | openvas-libraries-7.0.10/misc/network.c:2408-2450 | In place, returns the code and leaves the buffer of the value model; when realloc moves the block the connection keeps a pointer to freed memory |
| Connections.Connection.ReadLine | openvas-libraries-7.0.10/misc/network.c:2180-2206 | The loop of recv_line takes the next line, or as much of it as buffer, script and timeout let it reach, byte by byte, and loses nothing; which of the two is settled before the call |
| Connections.Connection.RecvLine | openvas-libraries-7.0.10/misc/network.c:2174-2218 | Returns the next line up to and with its newline exactly when it is reached, terminates it (over the last byte if it fills the buffer), and leaves the rest of the stream; a shorter piece comes with an error and a reason, and is not terminated |
| Connections.Connection.RecvLines | openvas-libraries-7.0.10/misc/network.c:2174-2218 | Calling it n times gives the lines of the stream, as many as are reached, and what is left of the stream comes behind them; it gives fewer than n only when a call was cut short |
| Connections.Connection.UnterminatedPiece | openvas-libraries-7.0.10/misc/network.c:2196-2206 | A stream that falls silent after one byte of a line: the caller's buffer holds that byte and no NUL |
| Lines.AllLinesReached | openvas-libraries-7.0.10/misc/network.c:2174-2218 | Lines that are complete and within what can be reached all come whole |
| Lines.NextLineIs | openvas-libraries-7.0.10/misc/network.c:2174-2218 | A piece of the stream with its first line end at its end is the line recv_line returns |
| Lines.CutFlatten | openvas-libraries-7.0.10/misc/network.c:2174-2218 | Cutting joined lines that are complete gives back those lines and leaves the rest |
| Descriptors.NewDescriptorIsFree | openvas-libraries-7.0.10/misc/network.c:182-200 | A new descriptor is the lowest that was free; there is none exactly when all 1024 are taken |
| Descriptors.CallAccounts | openvas-libraries-7.0.10/misc/network.c:182-312 | Each call accounts for every socket it registers, closes or gives up |
| Descriptors.SocketsAreAccountedFor | openvas-libraries-7.0.10/misc/network.c:182-312 | Over every run each socket is closed, in use or given up as often as it was registered; only descriptor 0 is closed once more for each release of a free slot |
| Descriptors.ReleaseClosesZeroIff | openvas-libraries-7.0.10/misc/network.c:204-259 | A release closes descriptor 0 exactly when the slot is free or holds descriptor 0 |
| Descriptors.RegisterThenRelease | openvas-libraries-7.0.10/misc/network.c:182-288 | Registering a socket and releasing it closes exactly that socket and frees the slot |
| Descriptors.Table.GetConnectionFd | openvas-libraries-7.0.10/misc/network.c:182-200 | Takes the first free slot, zeroed, for the process, or returns -1 |
| Descriptors.Table.RegisterConnection | openvas-libraries-7.0.10/misc/network.c:269-292 | The slot then holds the socket and its transport |
| Descriptors.Table.ReleaseConnectionFd | openvas-libraries-7.0.10/misc/network.c:204-259 | Closes the socket of the slot if its number is not negative, and clears the slot |
| Descriptors.Table.DeregisterConnection | openvas-libraries-7.0.10/misc/network.c:294-312 | Clears the slot and closes nothing |
| Descriptors.Table.WriteStream | openvas-libraries-7.0.10/misc/network.c:1601-1743 | On a TCP connection sends exactly as much of the buffer as the calls take, one byte at a time when splitting, and sets the error of the call that refused; returns the length, or -1 when nothing went out |
| Descriptors.SentIs | openvas-libraries-7.0.10/misc/network.c:1601-1743 | Everything the calls take goes out; something is left, with an error, exactly when they refuse before |
| NameCache.MkHash | openvas-libraries-7.0.10/misc/arglists.c:46-50 | Every name has a bucket of the table |
| NameCache.Bucket.GetName | openvas-libraries-7.0.10/misc/arglists.c:67-88 | Finds the one node of a name, and none exactly when its count is 0 |
| NameCache.Bucket.AddName | openvas-libraries-7.0.10/misc/arglists.c:90-109 | Puts a node with count 1 in front of the chain; prev and next stay inverse; no other count changes |
| NameCache.Bucket.Unlink | openvas-libraries-7.0.10/misc/arglists.c:143-152 | Takes a node out of the doubly linked chain, which stays linked and keeps every other node |
| NameCache.Bucket.Decrement | openvas-libraries-7.0.10/misc/arglists.c:125-154 | Lowers the count of a node, and removes it exactly at 0 |
| NameCache.Bucket.Inc | openvas-libraries-7.0.10/misc/arglists.c:111-122 | Raises the count of a name by one, adding its node when there was none |
| NameCache.Bucket.Dec | openvas-libraries-7.0.10/misc/arglists.c:125-154 | Lowers the count of a held name by one, removing its node at 0; a name not held is left alone |
| NameCache.Cache.Inc | openvas-libraries-7.0.10/misc/arglists.c:111-122 | Over the whole table: the count of this name is one more, every other count is the same, names stay unique and in the bucket of their hash |
| NameCache.Cache.Dec | openvas-libraries-7.0.10/misc/arglists.c:125-154 | Over the whole table: the count of this name is one less, every other count is the same |
| ArgTrees.CopyEqualIff | openvas-libraries-7.0.10/misc/arglists.c:263-311 | A duplicate equals the original, nested lists included, exactly when no nested list is NULL and no value has an unknown type |
| ArgTrees.CopyCarriers | openvas-libraries-7.0.10/misc/arglists.c:263-311 | A duplicate holds every name as often as the original |
| Arglists.Get | openvas-libraries-7.0.10/misc/arglists.c:185-200 | Returns the first cell with that name; comparing hashes first changes nothing |
| Arglists.AddValue | openvas-libraries-7.0.10/misc/arglists.c:156-182 | Appends an entry in the old terminator cell, adds one new cell as terminator, changes no other cell, and counts the name once more |
| Arglists.SetValue | openvas-libraries-7.0.10/misc/arglists.c:203-232 | Replaces value and length of the first entry with that name in its own cell, keeps its type and every other entry and cell, or returns -1 |
| Arglists.Free | openvas-libraries-7.0.10/misc/arglists.c:356-367 | Gives up the name of every cell of the list, and nothing of the lists nested in it |
| Arglists.FreeAll | openvas-libraries-7.0.10/misc/arglists.c:370-393 | Gives up every name of the list and of all lists nested in it |
| Arglists.Detach | openvas-libraries-7.0.10/misc/arglists.c:395-440 | Takes out the first entry with that name by relinking, or for the first cell by swapping contents, so that the caller's pointer stays the head, also of a list of one; the remaining cells are those of the list but one |
| Arglists.DelValue | openvas-libraries-7.0.10/misc/arglists.c:395-440 | Removes exactly the first entry with that name, keeps the others in order, the caller's head pointer, the blank last cell, every stored hash and all cells but one, and lowers that name's count by one |
| Arglists.Dup | openvas-libraries-7.0.10/misc/arglists.c:263-311 | Makes the copy in the given cell and new cells that no two nested lists share, leaves the original alone, and counts every name of the copy |
| Arglists.DupFields | openvas-libraries-7.0.10/misc/arglists.c:273-306 | The fields arg_dup gives one cell, by type |
| Arglists.IsRow | openvas-libraries-7.0.10/misc/arglists.c:356-367 | A list in memory is the row of cells that arg_free walks |
| ArgTrees.ChangeBalanced | openvas-libraries-7.0.10/misc/arglists.c:156-440 | Every call changes the count of each name by the change in the number of allocated cells that carry it, nested lists that a call leaves behind included |
| ArgStore.Store.Perform | openvas-libraries-7.0.10/misc/arglists.c:156-440 | In memory, with any number of lists apart from each other and one cache: every call leaves such a store, with the lists the call means, and each name counted once for every cell that carries it |
| ArgStore.Store.Run | openvas-libraries-7.0.10/misc/arglists.c:156-440 | The same for every sequence of calls |
| ArgStore.History | openvas-libraries-7.0.10/misc/arglists.c:54-440 | From an empty cache on, after any calls each name is counted once for every cell that carries it |
| ArgStore.Store.AddSubList | openvas-libraries-7.0.10/misc/arglists.c:156-182 | Nesting one list in another moves its cells there and counts one name |
| ArgStore.Store.SetPlain | openvas-libraries-7.0.10/misc/arglists.c:203-232 | Overwriting an entry that held a list leaves that list in memory with its names counted |
| ArgStore.Store.SetList | openvas-libraries-7.0.10/misc/arglists.c:203-232 | Setting an entry to one of the lists moves the cells of that list there, leaves a list it replaces in memory, and changes no count |
| ArgStore.Store.Delete | openvas-libraries-7.0.10/misc/arglists.c:395-440 | So does deleting it, with one name given up |
| ArgStore.Store.FreeOne | openvas-libraries-7.0.10/misc/arglists.c:356-367 | Freeing a list leaves the lists nested in it in memory with their names counted |
| ArgStore.DupThenFreeAll | openvas-libraries-7.0.10/misc/arglists.c:263-393 | Duplicating a list in memory and freeing the duplicate entirely leaves the list and every count as before |
| Addresses.AndMask | openvas-libraries-7.0.10/base/openvas_hosts.c:197-218 | Masking with the complement of the low bits clears exactly those bits |
| Addresses.ClearedMeaning | openvas-libraries-7.0.10/base/openvas_hosts.c:197-218 | Clearing k bits is rounding down to a multiple of 2^k |
| Addresses.BlockInRange | openvas-libraries-7.0.10/base/openvas_hosts.c:197-218 | Network and broadcast address bracket every address of the block, within the word |
| Addresses.BlockMeaning | openvas-libraries-7.0.10/base/openvas_hosts.c:197-218 | The masks and additions of cidr_block_ips give network + 1 and broadcast - 1, also for a prefix of 1 |
| Addresses.ShortRangeMeaning | openvas-libraries-7.0.10/base/openvas_hosts.c:348-383 | A short range ends at the network's last byte replaced by the number given |
| Ipv6.MemcmpVal | openvas-libraries-7.0.10/base/openvas_hosts.c:1038-1068 | Comparing 16 bytes with memcmp compares the addresses as numbers |
| Ipv6.Increment | openvas-libraries-7.0.10/base/openvas_hosts.c:559-567 | The carry loop adds one to the number, and wraps only from all ones |
| Ipv6.Decrement | openvas-libraries-7.0.10/base/openvas_hosts.c:568-576 | The borrow loop subtracts one |
| Ipv6.ClearTailVal | openvas-libraries-7.0.10/base/openvas_hosts.c:537-544 | Clearing bytes and bits from the end clears the low bits of the number |
| Ipv6.FillTailVal | openvas-libraries-7.0.10/base/openvas_hosts.c:546-553 | Setting them sets the low bits of the number |
| Ipv6.Cidr6Meaning | openvas-libraries-7.0.10/base/openvas_hosts.c:517-579 | For every address and prefix the ends are, as numbers, network + 1 and broadcast - 1 up to 126, network and broadcast for 127, the address for 128 |
| Ipv6.Cidr6BlockIps | openvas-libraries-7.0.10/base/openvas_hosts.c:517-579 | The byte loops in place compute those ends |
| HostText.Pton4Ntop4 | openvas-libraries-7.0.10/base/openvas_hosts.c:1622-1671 | Printing an IPv4 address and reading it gives it back |
| HostText.ValueStrInjective | openvas-libraries-7.0.10/base/openvas_hosts.c:1622-1671 | Two hosts of a collection have the same text exactly when they are the same host |
| HostText.PrefixAgreesIff | openvas-libraries-7.0.10/base/openvas_hosts.c:92-146 | The prefix length read with a field width is the one checked with strtol exactly when the text is no wider than the field |
| HostText.PrefixTextIff | openvas-libraries-7.0.10/base/openvas_hosts.c:92-146 | The text a.b.c.d/p with a checked prefix means the block of that prefix exactly when the prefix has at most two digits |
| HostText.LeadingZeroText | openvas-libraries-7.0.10/base/openvas_hosts.c:92-146 | The text a.b.c.d/024 means the block with the prefix 2 |
| HostText.MeaningProper | openvas-libraries-7.0.10/base/openvas_hosts.c:757-809 | Whatever an element means, its addresses have their width and its names are no addresses |
| HostText.CidrText | openvas-libraries-7.0.10/base/openvas_hosts.c:757-809 | The text a.b.c.d/p means the block of that address without network and broadcast address |
| HostText.ShortRangeText | openvas-libraries-7.0.10/base/openvas_hosts.c:757-809 | The text a.b.c.d-e means the addresses from a.b.c.d to the one with the last byte e |
| HostText.LongRangeText | openvas-libraries-7.0.10/base/openvas_hosts.c:757-809 | The text of two IPv4 addresses with a hyphen between them means the addresses from the one to the other |
| HostText.LongRange6Text | openvas-libraries-7.0.10/base/openvas_hosts.c:757-809 | The same for two IPv6 addresses |
| HostLists.Enumeration4EndsIff | openvas-libraries-7.0.10/base/openvas_hosts.c:998-1015 | The IPv4 loop ends exactly when the range is inverted or stops below the all-ones address |
| HostLists.Enumeration6EndsIff | openvas-libraries-7.0.10/base/openvas_hosts.c:1042-1068 | The same for the IPv6 loop |
| HostLists.RunawayText | openvas-libraries-7.0.10/base/openvas_hosts.c:998-1015 | A short range up to 255.255.255.255, as a user can write it, means such a range |
| HostLists.RunawayExample | openvas-libraries-7.0.10/base/openvas_hosts.c:998-1015 | The text 255.255.255.0-255 is one |
| HostLists.RunawayText6 | openvas-libraries-7.0.10/base/openvas_hosts.c:1042-1068 | So does an IPv6 range up to the all-ones address |
| HostLists.RangeMeaning | openvas-libraries-7.0.10/base/openvas_hosts.c:994-1069 | A range is expanded to exactly the addresses from first to last, ascending, each once |
| HostLists.WantedNoneIff | openvas-libraries-7.0.10/base/openvas_hosts.c:911-1098 | A specification is refused exactly when some non-blank element cannot be classified |
| HostLists.FirstOccurrencesMeaning | openvas-libraries-7.0.10/base/openvas_hosts.c:851-898 | De-duplication keeps every host, once |
| HostLists.FirstOccurrencesOrder | openvas-libraries-7.0.10/base/openvas_hosts.c:851-898 | The hosts kept are those at the places where a host stands first, in the order of these places |
| HostLists.WithoutMeaning | openvas-libraries-7.0.10/base/openvas_hosts.c:1282-1351 | Exclusion leaves exactly the hosts not excluded, and no new duplicate |
| HostLists.WithoutOrder | openvas-libraries-7.0.10/base/openvas_hosts.c:1282-1351 | What is left is what stands at the places of the hosts not excluded, in the order of these places |
| HostLists.UnifyKeeps | openvas-libraries-7.0.10/base/openvas_hosts.c:1455-1499 | Unification drops no host without a name and adds none |
| HostLists.UnifyMeaning | openvas-libraries-7.0.10/base/openvas_hosts.c:1455-1499 | Every looked-up name survives on exactly one host |
| HostLists.ShuffledIsPermutation | openvas-libraries-7.0.10/base/openvas_hosts.c:1167-1198 | For every sequence of random indices the shuffled list is a permutation |
| HostLists.EveryPermutationArises | openvas-libraries-7.0.10/base/openvas_hosts.c:1167-1198 | Every permutation is the outcome of some sequence of random indices |
| HostLists.StepKeeps | openvas-libraries-7.0.10/base/openvas_hosts.c:1167-1499 | Every exclusion, shuffle, reversal and filter keeps the absence of duplicates and adds no host |
| HostLists.HistoryKeeps | openvas-libraries-7.0.10/base/openvas_hosts.c:1167-1499 | So does every history of them |
| Hosts.Collection.AddRange4 | openvas-libraries-7.0.10/base/openvas_hosts.c:994-1016 | The loop puts exactly the addresses of the range in front of the list, or gives up with the count above the maximum, as it always does with a range it never leaves |
| Hosts.Collection.AddRange6 | openvas-libraries-7.0.10/base/openvas_hosts.c:1038-1069 | The same for 128-bit addresses, compared and incremented as bytes |
| Hosts.Collection.AddElement | openvas-libraries-7.0.10/base/openvas_hosts.c:939-1085 | One element: its hosts are put in front, or the result is NULL because it is unclassifiable, the count passes the maximum, or its enumeration would not end |
| Hosts.NewWithMax | openvas-libraries-7.0.10/base/openvas_hosts.c:911-1098 | NULL exactly when an element is unclassifiable, its enumeration would not end, or the hosts before de-duplication exceed a positive maximum, whatever comes after the element at which the code gives up; otherwise the first occurrences of the in-order expansions, with count and removed adding up to all of them |
| Hosts.Collection.Deduplicate | openvas-libraries-7.0.10/base/openvas_hosts.c:851-898 | With a hash table of texts: keeps the first occurrence of every host, and moves the rest from count to removed |
| Hosts.Collection.Next | openvas-libraries-7.0.10/base/openvas_hosts.c:1124-1136 | Iterates once over the list |
| Hosts.Collection.Resolve | openvas-libraries-7.0.10/base/openvas_hosts.c:1245-1268 | Replaces exactly the names that resolve, in their places |
| Hosts.Collection.ResolveCanDuplicate | openvas-libraries-7.0.10/base/openvas_hosts.c:1245-1268 | Resolving two names of one address makes a duplicate |
| Hosts.Collection.Exclude | openvas-libraries-7.0.10/base/openvas_hosts.c:1282-1351 | Leaves exactly the order-preserved difference, returns the number dropped or -1 when the other text is refused, and keeps count + removed |
| Hosts.Collection.ReverseLookupOnly | openvas-libraries-7.0.10/base/openvas_hosts.c:1413-1444 | Drops exactly the hosts without a name, returns how many, and keeps count + removed |
| Hosts.Collection.ReverseLookupUnify | openvas-libraries-7.0.10/base/openvas_hosts.c:1455-1499 | Keeps the first host of each name, returns how many it drops, and keeps count + removed |
| Hosts.Collection.Turn | openvas-libraries-7.0.10/base/openvas_hosts.c:1207-1215 | Reverses the list and restarts the iteration |
| Hosts.Collection.Shuffle | openvas-libraries-7.0.10/base/openvas_hosts.c:1167-1198 | Moves the picked elements one by one to a new list: the permutation of the value model, with the iteration at its head |
| PortText.ElementAgrees | openvas-libraries-7.0.10/base/openvas_networking.c:317-534 | Whatever the validator accepts for one element, the parser reads without failing its assertion and as ports in order and in range, although the two read it independently |
| PortText.StrtolUpToHyphen | openvas-libraries-7.0.10/base/openvas_networking.c:367-383 | The number before the hyphen is the same whether or not the hyphen has been cut out |
| PortText.SignedFirstNumberFails | openvas-libraries-7.0.10/base/openvas_networking.c:367-398 | A hyphen that strtol takes for a sign makes the element invalid |
| Ports.ValidatePortRange | openvas-libraries-7.0.10/base/openvas_networking.c:317-436 | Returns 0 exactly for a text that is not blank and whose every element is valid |
| Ports.PortRangeRanges | openvas-libraries-7.0.10/base/openvas_networking.c:445-534 | The ranges of the elements in order, each with the protocol of the last prefix at or before it, TCP at first; an empty element with a prefix still switches |
| Ports.ValidatedParses | openvas-libraries-7.0.10/base/openvas_networking.c:317-534 | An accepted text never hits the parser's assertion, and every range has 1 <= start <= end <= 65535 |
| Ports.PortInPortRanges | openvas-libraries-7.0.10/base/openvas_networking.c:545-562 | Says yes exactly when some range of that protocol holds the port; the port 65536 passes the guard |
| Ports.RangeTextParses | openvas-libraries-7.0.10/base/openvas_networking.c:317-534 | The canonical text of a range is valid and read back as that range |
| Ports.CanonicalRoundTrip | openvas-libraries-7.0.10/base/openvas_networking.c:317-534 | Every list of well-formed ranges has a text that is accepted and parses back to it |
| PortArrays.CompactInPlace | openvas-libraries-7.0.10/misc/scanners_utils.c:137-140 | Removes the spaces in place |
| PortArrays.WriteAll | openvas-libraries-7.0.10/misc/scanners_utils.c:155-205 | Writes the ports of the elements in order, or fails at the first inverted one |
| PortArrays.Compute | openvas-libraries-7.0.10/misc/scanners_utils.c:99-219 | Stays inside the array and returns what the text means, when the ports fit |
| PortArrays.PortMemo.GetPts | openvas-libraries-7.0.10/misc/scanners_utils.c:99-219 | With the memory of the last text the answer is always what computing it again would give |
| PortArrays.ArrayIsSorted | openvas-libraries-7.0.10/misc/scanners_utils.c:77-219 | The array holds the ports in ascending order, each as often as written, and then the only 0 |
| PortAgreement.ElementReadAlike | openvas-libraries-7.0.10/misc/scanners_utils.c:160-172 | A valid element without white space other than spaces gives the same ports here and in port_range_ranges |
| PortPlaces.FieldsAre | openvas-libraries-7.0.10/misc/scanners_utils.c:137-152 | getpts looks at the elements from the first T: on, with that prefix cut off, to the next U: or the end; without a T:, from the start; at one empty element when U: stands in front of a text without T: |
| PortPlaces.AgreeIff | openvas-libraries-7.0.10/misc/scanners_utils.c:99-219 | For accepted texts without empty elements and other white space: the list getpts writes, sorted, is the sorted TCP ports of port_range_ranges with one 0 behind them exactly when something is looked at, no single port stands after a later T:, and the TCP ports not looked at are the numbers added for later T: prefixes |
| PortPlaces.PlacesDecide | openvas-libraries-7.0.10/misc/scanners_utils.c:99-219 | Without a later T: among the elements looked at this is so exactly when something is looked at and no TCP element is left out |
| PortPlaces.ParsersAgree | openvas-libraries-7.0.10/misc/scanners_utils.c:99-219 | With T: at most in front and U: only later, and at most 65535 TCP ports, getpts stays inside its array and the two agree |
| PortPlaces.CanonicalAgreesIff | openvas-libraries-7.0.10/misc/scanners_utils.c:99-219 | For the canonical text of TCP ranges they agree exactly when every range but the first starts at port 1 |
| PortPlaces.TwoPortsDiffer | openvas-libraries-7.0.10/misc/scanners_utils.c:99-219 | For T:80-80,T:443-443 they differ |
| KbLists.ComputeKey | openvas-libraries-7.0.10/misc/kb.c:57-71 | The hash loop in 32-bit arithmetic, with a bucket below 65537 for every name |
| KbLists.BucketLookup | openvas-libraries-7.0.10/misc/kb.c:92-183 | Looking in one bucket is looking in the whole table |
| KbLists.Refines | openvas-libraries-7.0.10/misc/kb.c:261-421 | Each call changes the list of values of its own name as on a simple list, and no other name's list |
| KbLists.SetThenGet | openvas-libraries-7.0.10/misc/kb.c:92-372 | After a set, a lookup of the value's type finds that value, whatever was there before |
| KbLists.HashedAfter | openvas-libraries-7.0.10/misc/kb.c:261-421 | Every item stays in the bucket of its name |
| KbLists.SetKeepsUniqueIff | openvas-libraries-7.0.10/misc/kb.c:261-372 | A set keeps the values of a name unique exactly when the value is not one of the later ones |
| KbLists.MixedCallsDuplicate | openvas-libraries-7.0.10/misc/kb.c:261-372 | Two adds and a set leave the same value twice |
| KbLists.RunKeeps | openvas-libraries-7.0.10/misc/kb.c:261-421 | Over every run: without set no name has the same value twice, without add no name has two values |
| Kb.Kb.GetSingle | openvas-libraries-7.0.10/misc/kb.c:92-111 | Returns the first item with that name and type |
| Kb.Kb.GetAll | openvas-libraries-7.0.10/misc/kb.c:158-183 | Returns the name's items in reversed bucket order, which is what the pattern scan gives for a pattern that only this name matches |
| Kb.Kb.GetPattern | openvas-libraries-7.0.10/misc/kb.c:196-223 | Returns the matching items of the whole table, reversed |
| Kb.MatchingOneBucket | openvas-libraries-7.0.10/misc/kb.c:158-223 | The scan of the table restricted to a name is the scan of its bucket |
| Kb.Kb.AddSetItem | openvas-libraries-7.0.10/misc/kb.c:261-385 | The linked buckets afterwards, and the code, are those of the value model, for strings and integers, adding or replacing |
| Kb.Kb.RmAllItems | openvas-libraries-7.0.10/misc/kb.c:388-421 | Unlinks all items of the name and no other |
| Kb.Bucket.RmAllHere | openvas-libraries-7.0.10/misc/kb.c:399-420 | The same on one bucket, with the pointer to the previous cell |
| Sessions.NamesStayDistinct | greenbone-security-assistant-5.0.7/src/gsad.c:260-319 | Usernames stay distinct over every run, and the user whose holder has the mutex is in the table |
| Sessions.TokensStayDistinct | greenbone-security-assistant-5.0.7/src/gsad.c:260-319 | With fresh identifiers no two sessions share a token |
| Sessions.SessionsComeFromLogins | greenbone-security-assistant-5.0.7/src/gsad.c:260-644 | Every session goes back to its user's latest login by a chain of accepted lookups without a gap above the timeout, not removed since |
| Sessions.LoginsLeadToSessions | greenbone-security-assistant-5.0.7/src/gsad.c:260-644 | Every such chain leads to a session in the table |
| Sessions.FindAcceptsExactly | greenbone-security-assistant-5.0.7/src/gsad.c:333-378 | user_find succeeds exactly for a token and cookie of such a chain that reaches now without a gap above the timeout |
| Sessions.DocumentedCodeIff | greenbone-security-assistant-5.0.7/src/gsad.c:320-378 | user_find returns the documented code exactly when the token is missing, or known and either its session has expired or the cookie belongs to it |
| Sessions.BadCookieAndToken | greenbone-security-assistant-5.0.7/src/gsad.c:320-378 | A table of one user, a bad cookie and a bad token: documented are 3 and 1, returned is 2 for both |
| Sessions.OtherwiseExpired | greenbone-security-assistant-5.0.7/src/gsad.c:320-378 | In all other cases it returns 2 in place of the documented 1 or 3 |
| Sessions.HeldExactlyAfterTaking | greenbone-security-assistant-5.0.7/src/gsad.c:260-644 | The mutex is held exactly after user_add and successful lookups, until release or removal |
| Sessions.HoldsBalance | greenbone-security-assistant-5.0.7/src/gsad.c:260-644 | Each hold is ended once |
| SessionCalls.Table.UserAdd | greenbone-security-assistant-5.0.7/src/gsad.c:260-319 | Resets the sessions of a known user or appends a new one, and returns with the mutex held; a second login keeps the old severity class |
| SessionCalls.Table.UserFind | greenbone-security-assistant-5.0.7/src/gsad.c:333-378 | Code, table and mutex afterwards are those of the state machine; the user is returned exactly on 0 |
| SessionCalls.Table.TokenUserOf | greenbone-security-assistant-5.0.7/src/gsad.c:593-626 | The same for token_user, which tells unknown from expired tokens |
| SessionCalls.Table.RemoveByToken | greenbone-security-assistant-5.0.7/src/gsad.c:635-644 | Removes the user of a token that is accepted, and always returns with the mutex free |
| SessionCalls.Table.UserRemove | greenbone-security-assistant-5.0.7/src/gsad.c:576-581 | Removes the held user and frees the mutex |
| SessionCalls.Table.UserRelease | greenbone-security-assistant-5.0.7/src/gsad.c:565-569 | Frees the mutex and nothing else |
| SessionCalls.Table.UserSet | greenbone-security-assistant-5.0.7/src/gsad.c:388-558 | Changes one setting of that user, or returns 1; no session changes |
| Checksum.InCksum | openvas-libraries-7.0.10/misc/ids_send.c:233-259 | The loop and the two folds compute the complement of the one's-complement sum of section 1 of RFC 1071 for up to 131076 bytes |
| Checksum.FoldedRightIff | openvas-libraries-7.0.10/misc/ids_send.c:255-258 | Two folds give the one's-complement residue exactly when the second needs no carry |
| Checksum.TwoFoldsSuffice | openvas-libraries-7.0.10/misc/ids_send.c:233-259 | They do for every buffer of up to 131076 bytes, of either byte order |
| Checksum.OneByteLonger | openvas-libraries-7.0.10/misc/ids_send.c:233-259 | A buffer of 131077 bytes for which they do not |
| Checksum.OrderDoesNotMatter | openvas-libraries-7.0.10/misc/ids_send.c:233-259 | The sum does not depend on the order of the words |
| Checksum.StoredChecksumVerifies | openvas-libraries-7.0.10/misc/ids_send.c:233-259 | Storing the checksum in a zero field at an even place brings the checksum of the whole to 0 |
| Checksum.UnnoticedIff | openvas-libraries-7.0.10/misc/ids_send.c:233-259 | A change of one word goes unnoticed exactly when 0 and 0xFFFF are exchanged in a buffer that is not all zero before or after |
| Checksum.ByteOrderIndependent | openvas-libraries-7.0.10/misc/ids_send.c:233-259 | A machine of the other byte order computes the same sum with its bytes exchanged |
| Cvss.ScoreInRange | openvas-libraries-7.0.10/base/cvss.c:203-308 | Every combination of table values, given or missing, scores from 0 to 10; 0 exactly when nothing is affected, otherwise above 0.25 |
| Cvss.ScoreIsMonotone | openvas-libraries-7.0.10/base/cvss.c:203-308 | Making metrics worse never lowers the score |
| Cvss.ScoreIsRoundIff | openvas-libraries-7.0.10/base/cvss.c:33-45 | The documented equation rounds to one decimal; for every combination of table values, given or missing, the code's score is a multiple of 0.1 exactly when confidentiality, integrity and availability are all unaffected |
| Cvss.BaseScoreIsRoundIff | openvas-libraries-7.0.10/base/cvss.c:295-364 | For every input string the result is such a multiple exactly when the string is refused or the last values it gives for C, I and A are 0 |
| Cvss.EveryInputScores | openvas-libraries-7.0.10/base/cvss.c:317-364 | Every input string gives -1 or a score from 0 to 10 |
| Cvss.LastValueCounts | openvas-libraries-7.0.10/base/cvss.c:236-283 | The structure holds the last value given for each metric, or 0 |
| Cvss.OnlyLastValuesMatter | openvas-libraries-7.0.10/base/cvss.c:236-364 | Vectors with the same last values have the same score |
| Cvss.CanonicalScore | openvas-libraries-7.0.10/base/cvss.c:317-364 | A canonical vector is accepted and scored by the equations for the last choice of each metric |
| Cvss.AnyOrderScoresTheSame | openvas-libraries-7.0.10/base/cvss.c:317-364 | The order of the metrics in a canonical vector does not matter |
| Cvss.CanonicalIsRoundIff | openvas-libraries-7.0.10/base/cvss.c:295-364 | A canonical vector has a rounded score exactly when it leaves C, I and A out or gives N last for each |
| Cvss.PartialIsNotRound | openvas-libraries-7.0.10/base/cvss.c:295-364 | The vector C:P has no rounded score |
| Cvss.SegmentsReadAloneIff | openvas-libraries-7.0.10/base/cvss.c:331-356 | A vector is read segment by segment exactly when no value strays from one segment to the next; a vector with a stray value is accepted although it is malformed |
| Cvss.StrayVectors | openvas-libraries-7.0.10/base/cvss.c:331-356 | The shape of the shortest such vectors, and the score they get |
| Cvss.StrayVector | openvas-libraries-7.0.10/base/cvss.c:331-356 | A concrete vector of that shape, C/x:C:, is accepted and scored for C:C alone |
| CvssCalls.Strtok | openvas-libraries-7.0.10/base/cvss.c:333-343 | One call of strtok on the buffer: the token, where the next call goes on, and the one character overwritten |
| CvssCalls.Struct.SetImpact | openvas-libraries-7.0.10/base/cvss.c:236-283 | Sets the metric from the table, or returns -1 and changes nothing |
| CvssCalls.MetricOf | openvas-libraries-7.0.10/base/cvss.c:171-193 | The comparisons of toenum give the metric of the value model |
| CvssCalls.Turn | openvas-libraries-7.0.10/base/cvss.c:331-356 | One turn of the loop in place makes the assignment the value model says, and leaves the text for the next turn |
| CvssCalls.GetCvssScoreFromBaseMetrics | openvas-libraries-7.0.10/base/cvss.c:317-364 | Cutting the copy in place computes the score of the value model, and -1 for NULL |

## Left out

- TLS, certificates and the TLS branch of the stream reader; non-blocking flags and the real clock of `select` (a silent second is one event of the script).
- Blocking for ever: a script that is used up counts as the end of the stream.
- `auth_send`: an easy member. The send options that forge packets (`ids_send`) when writing to a connection.
- `recv_line` on plain sockets, which peeks with `MSG_PEEK`: only the stream branch is modelled.
- IpcCalls.InternalRecv: the length 2^31 - 1, for which `len + 1` overflows, is modelled without the overflow, and the size of the caller's buffer is the length of the array; callers that pass a NULL `data` pointer are not modelled.
- Failure of `malloc`, except in `stream_set_buffer`; the bytes of a new block are 0.
- Reuse of freed memory: a freed cell or node is never used again, but the model does not free it.
- ArgStore.Store.Run: lists nested in another are changed only through the list they are nested in, and no list is nested twice, as `arg_free_all` needs; the contracts of single calls in Arglists allow sharing.
- A structure to be stored is there and has the length it is said to have; `memcpy` from a NULL pointer is not modelled.
- Names as pointers into the name cache: a cell keeps the text of its name and the count of it.
- Arglists.Dup: the fields of a copied cell are written together, after the nested list was copied; the calls on the name cache keep their order.
- Wrap-around of the unsigned counts of names and hosts.
- `arg_dump` and the typed getters and setters around the modelled calls.
- Name service and reverse lookups as such: they are functions, so asking twice gives the same answer.
- Hosts.NewWithMax: texts in which the loop gets to an element whose prefix length passes the check but is read as 0 (leading zeros), because the C code then shifts by the width of the word or writes outside the address; and, without a maximum, texts in which it gets to a range up to the all-ones address, on which the C code does not return.
- Hosts.Collection.Exclude: the same, for the text of the excluded hosts, which is always read without a maximum.
- `openvas_host_in_hosts`, host types as text, and `openvas_hosts_new`: easy members.
- Host texts are compared as text; the hash table of texts is a set.
- PortArrays.PortMemo.GetPts: the answer is a value, while the C function hands out the remembered array itself, which its callers must not change; the byte before the text, which is read when a text starts with "U:", counts as no comma; `qsort` is an insertion by the same comparison.
- `getpts` on texts with ports above 65535 or more than 65535 ports, where the C function writes outside its array.
- PortPlaces.AgreeIff: texts with tabs, newlines or empty elements are not compared, since `getpts` reads an empty element as an inverted range and only `port_range_ranges` skips other white space; where a text does not fit the array, the statement is about the list of numbers written and not about the C function.
- Knowledge base calls with a NULL base or name, and saving the base to disk.
- The pattern matcher of `kb_item_get_pattern`: any predicate on names.
- Threads: the mutex makes each call one step, and the run is the order of these steps; a thread that waits for the mutex has not taken its step. The filter identifiers stored with a user are not modelled, and `session_timeout * 60` does not overflow.
- `in_cksum` sums in a C long; the model covers every length a C int can give on a machine where a long has 64 bits.
- Rounding of floating-point numbers in the CVSS score: the score is an exact real.
- `inject`, `ids_send`, packet headers, the HTTP server, XSL pages, LDAP, logging, settings, `nvti.c` and the command-line tools: plumbing, or dependent on platform structures.
- `openvas_strip_space` and `nvticache_get`: no clean specification.
