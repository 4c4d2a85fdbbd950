# nutcracker core, modelled in Dafny

This project models the sequential core of nutcracker, a twemproxy-style
Redis/Memcache proxy written in C++. It covers:

- the byte segments (`NcMbuf`) and the message pipeline that reads into
  them, splits parsed messages, gathers them into vectored writes and
  accounts for the bytes written (`NcMsg`, `NcConn::recvChain`,
  `sendChain`, `freeMsg`);
- the recycling object pools and the object graph of one context:
  messages, segments and connections kept in maps from references to
  records, so pointer sharing and stale references stay visible;
- the client, server and proxy connection roles with their FIFO queues
  (`ref`, `unref`, `active`, `close`, `recvNext`, `recvDone`,
  `sendNext`, `sendDone`, `connect`, `accept`);
- server ejection, the key-to-server choice and the continuum rebuilds
  (`failure`, `index`, `getConn`, `random_update`, `modula_update`);
- the red-black deadline index (`nc_rbtree.h`) and the timeout sweep of
  the event loop (`NcInstance::loop`);
- the event layer: result classification of `recv`/`send`/`sendv`, and
  the epoll and kqueue backends' interest bookkeeping and event
  translation;
- the small parsers and helpers: `_nc_strchr`/`_nc_strrchr`,
  `NcString`, `_nc_atoi`, `ncValidPort`, `NC_ALIGN`, the id and
  connection counters, the configuration splitters and the YAML event
  stack machine, the logger's level handling and path scanners, and the
  command-line option checks.

System calls, the clock, name resolution, hashing, libyaml and
getopt_long are not executed: each becomes a parameter (an outcome
sequence, a `now`, a resolver result, a hash value, an event list).
Where the source reads an uninitialised or reused object, the model
takes that object's state as an input too. Fixed-width integers wrap
explicitly (`U32`, `U16`, `I32`, `U64` in `common.dfy`).

Where the code and its design comments disagree, the model follows the
code. Where the code is evidently wrong, the operation comes in two
halves, the code as written and the evident intent, each with its
properties proved (see "## Findings"). The operations built on top of
such an operation follow the code: `Connection.SendChainAsWritten`,
`Kqueue.Wait`, `Conf.Handler` (and through it the configuration
loader) and `Store.Untimed` (and through it `freeMsg`, `close` and the
timeout sweep) use the as-written halves. Their intended counterparts
`Connection.SendChain`, `Kqueue.WaitGuarded` and `Conf.HandlerIntended`
sit beside them.

Files: `common.dfy`, `queue.dfy`, `objectpool.dfy`, `mbuf.dfy`,
`ncstring.dfy`, `util.dfy`, `log.dfy`, `options.dfy`, `conf.dfy`,
`event.dfy`, `epoll.dfy`, `kqueue.dfy`, `pool.dfy`, `hashkit.dfy`,
`rbtree.dfy`, `store.dfy`, `message.dfy`, `server.dfy`, `client.dfy`,
`connection.dfy`, `proxy.dfy`, `core.dfy`. Each file is one module.

## Model

| member | source | states |
|---|---|---|
| Util.ValidPort | nc_util.h:171-179 | a port is accepted exactly when it lies in 1..65535 |
| Util.Min | nc_util.h:50 | MIN yields a value no larger than either argument and equal to one of them |
| Util.Max | nc_util.h:51 | MAX yields a value no smaller than either argument and equal to one of them |
| Util.Align | nc_util.h:85 | NC_ALIGN for a power-of-two `n` yields a multiple of `n` in `[d, d+n)` |
| Util.AlignBounds | nc_util.h:85 | subtracting the remainder leaves a multiple of `n` at most `n - 1` below the value |
| Util.AlignIsLeast | nc_util.h:85 | that multiple is the least multiple of `n` not below `d` |
| Util.InitialIdGen | nc_util.h:487-491 | the id counter starts at 1 |
| Util.NextId | nc_util.h:487-491 | uniqNextId returns the counter and leaves a larger one behind |
| Util.DrawIdsIncrease | nc_util.h:487-491 | successive ids are consecutive from the start value and strictly increasing |
| Util.InitialCounters | nc_util.h:501-523 | the three connection counters start at zero |
| Util.TotalConn | nc_util.h:501-506 | ncTotalConn adds `incr` modulo 2^64, returns the new value and leaves the other counters alone |
| Util.CurConn | nc_util.h:509-514 | ncCurConn adds `incr` modulo 2^32 and returns the new value; other counters unchanged |
| Util.CurCConn | nc_util.h:517-522 | ncCurCConn adds `incr` modulo 2^32 to the client counter; other counters unchanged |
| Util.CurConnRoundTrip | nc_util.h:509-514 | adding `incr` and then `-incr` restores the counters, wrap-around included |
| Util.MbufChunkSize | nc_util.h:525-534 | a non-zero argument replaces the chunk size, zero keeps it; the current size is returned |
| Util.MbufChunkSizeSetThenGet | nc_util.h:525-534 | a query with 0 after setting `n` returns `n` |
| Util.Resolve | nc_util.h:338-431 | a missing or empty name fails; a name starting with `/` becomes an AF_UNIX address iff it is shorter than the sun_path capacity; any other name succeeds iff the lookup yields an address, which is taken; failure leaves the sockinfo untouched |
| Util.UpToNul | nc_util.h:354-356 | the C-string view of a buffer is its longest NUL-free prefix, stopped by a NUL when shorter |
| Util.UpToNulOfTerminated | nc_util.h:354-356 | a NUL-free path followed by a terminator reads back as that path |
| Util.ResolveUnixRoundTrip | nc_util.h:343-360 | resolving a short NUL-free absolute path yields AF_UNIX with that path as the C string of sun_path |
| Util.Accumulate | nc_util.cpp:12-20 | the digit loop's `int` accumulator always lies in the 32-bit range |
| Util.Atoi | nc_util.cpp:3-28 | empty input and any non-digit give -1; for digits the result is -1 iff the wrapped accumulator is negative, and otherwise equals it |
| Util.AccumulateExact | nc_util.cpp:12-20 | when the decimal value fits in `int`, the accumulator equals it |
| Util.AtoiExact | nc_util.cpp:3-28 | a digit string whose value is below 2^31 converts to exactly that value |
| Util.DecimalSnoc | nc_util.cpp:12-20 | one more digit multiplies the value by ten and adds the digit, the accumulator doing the same modulo 2^32 |
| Util.AtoiWrapsAround | nc_util.cpp:12-27 | "4294967297" is all digits with value 2^32+1, yet converts to 1 |
| Util.Vscnprintf | nc_util.cpp:84-100 | a non-positive count gives 0, a count below the size is returned, otherwise `size - 1` as an `int` |
| Util.VscnprintfBound | nc_util.cpp:84-100 | for a size in 1..2^31-1 the result lies in `[0, size)`; a size of 0 yields -1 |
| Util.Sendn | nc_util.cpp:114-144 | _nc_sendn returns either `n` or -1 |
| Util.SendnCompletes | nc_util.cpp:114-144 | when the sends write at least the remaining bytes the result is `n` |
| Util.SendnRetriesEintr | nc_util.cpp:125-131 | interrupted sends in front of the outcomes change nothing |
| Util.Recvn | nc_util.cpp:146-176 | _nc_recvn returns -1 or a count between what was already read and `n` |
| Util.RecvnCountsReads | nc_util.cpp:146-176 | reads that stop at end of stream return the number of bytes read |
| Util.RecvnCountsFrom | nc_util.cpp:154-175 | from any point of the loop, end of stream returns all bytes read so far |
| Mbuf.NewMbuf | nc_mbuf.h:46-55 | a fresh segment satisfies the cursor invariant `pos <= last <= end` |
| Mbuf.NewMbufIsEmpty | nc_mbuf.h:46-55 | a fresh segment is empty, has no content, its free room is the chunk size minus the header, and it is full only when the chunk is all header |
| Mbuf.IsEmpty | nc_mbuf.h:67-70 | empty(): the cursors meet; RegionsPartition states that this is exactly a zero length() |
| Mbuf.IsFull | nc_mbuf.h:72-75 | full(): the write cursor is at the end; RegionsPartition states that this is exactly a zero size() |
| Mbuf.Length | nc_mbuf.h:108-111 | length(): the bytes between the cursors; RegionsPartition adds it to size() and the consumed bytes to get dataSize() |
| Mbuf.Size | nc_mbuf.h:113-116 | size(): the room after the write cursor; RegionsPartition adds it to length() and the consumed bytes to get dataSize() |
| Mbuf.RegionsPartition | nc_mbuf.h:67-121 | consumed bytes, length() and size() add up to dataSize(); empty() iff length() is 0, full() iff size() is 0 |
| Mbuf.SetPos | nc_mbuf.h:87-90 | advancing the read cursor by `n` drops exactly the first `n` content bytes |
| Mbuf.SetLast | nc_mbuf.h:92-95 | advancing the write cursor by `n` appends the next `n` buffer bytes to the content and shrinks the room by `n` |
| Mbuf.SetComplete | nc_mbuf.h:97-100 | after setComplete the segment is empty with its write cursor and bytes unchanged |
| Mbuf.Rewind | nc_mbuf.h:102-106 | rewind makes the whole data region the content: the segment is full and empty only if the region is |
| Mbuf.Reset | nc_mbuf.h:62-65 | reset is rewind |
| Mbuf.Overwrite | nc_mbuf.h:130 | memcpy at an offset changes exactly the bytes it covers |
| Mbuf.Copy | nc_mbuf.h:123-132 | copying `n` bytes appends them to the content, leaves the read cursor and the bytes outside the written range as they were |
| Mbuf.CopyThenConsume | nc_mbuf.h:87-132 | what is copied into an empty segment is its content, and consuming it all (setPos or setComplete) empties it |
| Mbuf.Split | nc_mbuf.h:168-185 | splitting at `p` keeps `[pos, p)` in the old segment and moves `[p, last)` to a fresh one starting at offset 0 |
| Mbuf.SplitConservesContent | nc_mbuf.h:168-185 | the two halves concatenate back to the original content, lengths adding up |
| NcStr.EmptyString | nc_string.h:49-55 | the default string has length 0 and empty content |
| NcStr.FromBytes | nc_string.h:67-86 | a successful duplication holds the first `len` bytes with length `len`; a failed one has length 0 and no data |
| NcStr.CopyOf | nc_string.h:57-65 | the copy constructor reproduces length and content, or leaves no data when duplication fails |
| NcStr.Assign | nc_string.h:98-118 | self-assignment changes nothing; otherwise a successful copy takes length and content, a failed one keeps the old length and loses the data |
| NcStr.CopyPreserves | nc_string.h:57-118 | copying or assigning a valid string yields an equal string |
| NcStr.Strncmp | nc_string.h:202 | the comparison is 0 exactly when the byte sequences are equal, and is one of -1, 0, 1 |
| NcStr.StrncmpAntisymmetric | nc_string.h:202 | swapping the operands negates the comparison |
| NcStr.Compare | nc_string.h:195-203 | a longer string compares greater, a shorter one less, and the result is 0 exactly when the contents are equal |
| NcStr.CompareAntisymmetric | nc_string.h:195-203 | compare(a, b) is the negation of compare(b, a) |
| NcStr.Equals | nc_string.h:146-155 | operator== is false for an empty left operand and otherwise holds iff both C strings agree up to their NUL |
| NcStr.EqualsBytes | nc_string.h:157-166 | the byte-pointer operator== is also false against NULL |
| NcStr.EqualsIsContentEquality | nc_string.h:146-155 | for valid strings operator== holds iff the left one is non-empty and the contents are equal; two empty strings are not equal |
| NcStr.StrChrScan | nc_string.h:207 | the scan pointer never moves backwards and does not pass `last` |
| NcStr.StrChr | nc_string.h:205-209 | a found position lies in `[p-1, last-1)` |
| NcStr.FirstIndex | nc_string.h:205-209 | reference search: the first `c` in `[q, last)`, or `last` |
| NcStr.StrChrScanNoNul | nc_string.h:207 | over NUL-free bytes the scan ends one past the first match, or at `last` |
| NcStr.StrChrFindsFirst | nc_string.h:205-209 | over NUL-free bytes _nc_strchr returns the first match when it lies before `last-1`, and NULL otherwise, so a match at `last-1` is not reported |
| NcStr.StrRChrScan | nc_string.h:213 | the backwards scan ends between `start-1` and its starting point |
| NcStr.StrRChrScanStops | nc_string.h:211-215 | the backwards scan, when it stays at or above start, ends on a NUL or one below a byte equal to c |
| NcStr.StrRChr | nc_string.h:211-215 | a found pointer lies in (start, p+1] and points at a byte equal to c, or just past the NUL the scan stopped on |
| NcStr.LastIndex | nc_string.h:211-215 | reference search: the last `c` in `[start, q]`, or `start-1` |
| NcStr.StrRChrScanNoNul | nc_string.h:213 | over NUL-free bytes the backwards scan ends one below the last match, or at `start-1` |
| NcStr.StrRChrFindsLast | nc_string.h:211-215 | over NUL-free bytes _nc_strrchr returns the last match when it lies above `start`, and NULL otherwise, so a match at `start` is not reported |
| NcStr.StrRChrListenSample | nc_string.h:211-215 | on "127.0.0.1:22121" the search for ':' from the last character finds index 9 |
| Log.NewLogger | nc_log.cpp:4-8 | a new logger writes to descriptor 1 at the most verbose level |
| Log.ClampLevel | nc_log.cpp:21 | the level is clamped into LLOG_EMERG..LLOG_PVERB, in-range levels kept, out-of-range ones sent to the nearer bound |
| Log.SetLevel | nc_log.cpp:53-56 | setLevel changes only the level, to the clamped value |
| Log.Init | nc_log.cpp:19-38 | init clamps the level; without a name (or an empty one) it logs to stderr and succeeds; with a name it keeps a copy, takes the opened descriptor, and returns 0 iff the open succeeded, -1 otherwise |
| Log.LogAble | nc_log.cpp:67-75 | logAble is 1 exactly when the message level is at or below the logger's level, and 0 otherwise |
| Log.SetLevelThenLogAble | nc_log.cpp:53-75 | after setLevel(v) a message passes iff its level is at most the clamped `v` |
| Log.IndexScan | nc_log.cpp:83-87 | the forward scan stops at the first NUL or `c`, having passed neither |
| Log.StringIndexOf | nc_log.cpp:77-91 | NULL or an empty string gives -1; otherwise the index of the first `c`, or the string length when there is none |
| Log.LastScan | nc_log.cpp:100-111 | the remembered index is either the start value or a later position holding `c` inside the string |
| Log.StringLastOf | nc_log.cpp:93-117 | NULL or an empty string gives -1; otherwise an index inside the string |
| Log.NoNulWithinUpToNul | nc_log.cpp:100 | a position with no NUL at or before it lies inside the C string |
| Log.UpToNulEndsAt | nc_log.cpp:100 | a NUL at `i` bounds the C string's length by `i` |
| Log.LastScanIsLast | nc_log.cpp:100-111 | the scan's answer is the start value or holds `c`, and no later byte of the string holds `c` |
| Log.StringLastOfIsLast | nc_log.cpp:93-117 | stringLastOf returns the last position of `c`, or 0 when `c` occurs nowhere after position 0 (0 is also returned when `c` is absent) |
| Log.StringLastOfSample | nc_log.cpp:144 | for the file name "../a.cpp1xxxaaa" the last '/' is at index 2 |
| Log.LastScanStays | nc_log.cpp:100-111 | with no `c` ahead the remembered index does not move |
| Log.IndexOfBeforeLastOf | nc_log.cpp:77-117 | when `c` occurs, stringIndexOf finds it inside the string and no later than stringLastOf |
| Options.DefaultOptions | nc.cpp:215-245 | the defaults: log level 10, the log and configuration paths, stats port 22222 on 0.0.0.0 every 30000 ms, 16384-byte chunks, no pid file and pid -1; the host name is looked up, or "unknown" when that fails |
| Options.ApplyOption | nc.cpp:105-207 | one option is accepted exactly when its argument passes that option's check; a rejected option returns NC_ERROR and changes nothing |
| Options.GetOptions | nc.cpp:93-212 | ncGetOptions returns NC_OK or NC_ERROR |
| Options.GetOptionsOkIffAllAccepted | nc.cpp:93-212 | the command line is accepted exactly when every option on it is |
| Options.AcceptedValuesInRange | nc.cpp:124-181 | an accepted -m sets a chunk size within 512..16777216, an accepted -s a valid port, an accepted -v a non-negative level |
| Options.Digits22122 | nc_util.cpp:3-28 | "22122" converts to 22122 |
| Options.Digits0 | nc_util.cpp:3-28 | "0" converts to 0 |
| Options.Digits70000 | nc_util.cpp:3-28 | "70000" converts to 70000 |
| Options.StatsPortSamples | nc.cpp:139-152 | -s 22122 sets the stats port to 22122, while -s 0 and -s 70000 are rejected as invalid ports |
| Conf.NewListen | nc_conf.h:43-44 | a new listen record is not valid and its strings are empty |
| Conf.NewServer | nc_conf.h:60-61 | a new server record has weight 0 and is not valid |
| Conf.NewPool | nc_conf.h:74-85 | a new pool carries the CONF_DEFAULT values: timeout -1, backlog 512, no client limit, one server connection, retry after 30000 ms, failure limit 2, every flag off, no servers |
| Conf.SplitLast | nc_conf.cpp:15-17 | the backwards split point is the last occurrence of the separator above index 0, or there is none above index 0 |
| Conf.Buf | nc_conf.cpp:15-16 | the bytes the parsers walk are the string's content followed by its NUL |
| Conf.Finish | nc_conf.cpp:70-82 | the tail of both parsers: pname is the value, name is the first `namelen` bytes, and the status is NC_OK exactly when resolution succeeds, which makes the record valid with the resolved address |
| Conf.ListenParse | nc_conf.cpp:3-83 | NcConfListen::parse returns NC_OK or NC_ERROR; success makes the record valid with pname set to the value |
| Conf.Joined | nc_conf.cpp:3-83 | "h:d" as a well-formed string with content `h ++ [sep] ++ d` |
| Conf.DigitsHaveNoSeparator | nc_conf.cpp:47 | a digit string holds neither ':' nor ' ' nor NUL |
| Conf.ListenInetRoundTrip | nc_conf.cpp:44-82 | parsing "host:port" with a port in 1..65535 recovers the host as the name and the port, and succeeds exactly when the host resolves, taking the resolved address |
| Conf.ListenEmptyHostRejected | nc_conf.cpp:47-53 | ":port" has no separator above index 0 and is rejected |
| Conf.ListenUnixNoPerm | nc_conf.cpp:12-21 | a socket path without a permission field is the name whole, keeps the old permission, and is accepted iff it fits in sun_path |
| Conf.ListenUnixPerm | nc_conf.cpp:22-40 | "path perm" with an octal permission up to 0777 sets that permission and the path as the name, accepted iff the path fits |
| Conf.ListenBadPermRejected | nc_conf.cpp:34-39 | a permission that strtol flags or that exceeds 0777 is rejected |
| Conf.WithWeight | nc_conf.cpp:173-194 | the weight is the atoi of its field, and success implies a non-negative weight and a valid record |
| Conf.ServerParse | nc_conf.cpp:85-195 | NcConfServer::parse, with the unix path ending at the weight's space: success implies a non-negative weight and a valid record |
| Conf.ServerParseAsWritten | nc_conf.cpp:85-195 | NcConfServer::parse as written: success implies a non-negative weight and a valid record |
| Conf.ServerParseWith | nc_conf.cpp:85-195 | the two server parsers return NC_OK or NC_ERROR, and success gives a valid record with a non-negative weight |
| Conf.ServerInet | nc_conf.cpp:142-171 | the "host:port:weight" branch: success implies a valid port, a non-negative weight and a valid record |
| Conf.ServerInetSplit | nc_conf.cpp:142-166 | in "h:d:w" the last ':' precedes the weight and the one before it precedes the port, so the fields come back as `h`, `d` and `w` |
| Conf.ServerInetAt | nc_conf.cpp:142-194 | with both separators found and a valid port, the server parse is the weight check on the port's record |
| Conf.ServerInetParses | nc_conf.cpp:142-194 | "h:d:w" with a port in 1..65535 takes the inet path with port `d`, weight `w` and name `h` |
| Conf.ServerInetRoundTrip | nc_conf.cpp:142-194 | parsing "h:d:w" recovers name, port and weight, and succeeds exactly when the host resolves |
| Conf.ServerUnixNoPerm | nc_conf.cpp:115-127 | for "path weight" the parser as written names the socket "path weight", while the corrected one names it `path` and takes the weight |
| Conf.ServerBadWeightRejected | nc_conf.cpp:173-179 | a weight field that is not a decimal makes the parse fail |
| Conf.HandlerWith | nc_conf.cpp:535-579 | with at most one argument nothing happens; with a pool the status is always NC_OK and a pool remains; without one, a "listen" or "servers" key dereferences NULL |
| Conf.Handler | nc_conf.cpp:535-579 | the handler as written, whose servers go through NcConfServer::parse as written: the same guarantees |
| Conf.HandlerIntended | nc_conf.cpp:535-579 | the handler with the corrected server parser: the same guarantees |
| Conf.HandlerServers | nc_conf.cpp:557-570 | for either parser, a "servers" value is appended to the pool exactly when it parses, and otherwise the pool is unchanged |
| Conf.UpToNulPlain | nc_conf.cpp:548 | a NUL-free string reads back whole as a C string |
| Conf.NewParser | nc_conf.h:116 | a new parser has depth 0, no sequence, no pools and no arguments |
| Conf.Commit | nc_conf.cpp:489-491 | the pool being filled replaces the last pool of the list, nothing else of the parser changing |
| Conf.Pop | nc_conf.cpp:431-436 | yamlPopScalar drops the top argument; popping an empty stack is undefined |
| Conf.Step | nc_conf.cpp:438-532 | one event of parseCore stops only with NC_ERROR, undefined behaviour, or NC_OK at depth 0, and never loses a pool |
| Conf.Leaf | nc_conf.cpp:510-524 | after the handler runs on a leaf, the only way to stop is an undefined pop, and the pool count is unchanged |
| Conf.ParseCore | nc_conf.cpp:438-532 | parseCore ends with NC_OK (only at depth 0), NC_ERROR or undefined behaviour, keeping every pool read so far |
| Conf.MappingEvents | nc_conf.cpp:452-466 | a mapping end at depth 2 pops one argument, at depth 1 finishes with NC_OK at depth 0; a mapping start deepens by one |
| Conf.SequenceEvents | nc_conf.cpp:468-481 | a sequence start sets the flag, a sequence end pops and clears it, and an empty scalar fails with NC_ERROR |
| Conf.RootScalarOpensPool | nc_conf.cpp:487-492 | a scalar at the root depth opens a fresh default pool and pushes the scalar as the pool name |
| Conf.KeyValueKeepsStack | nc_conf.cpp:493-523 | inside a pool a key then a value run the handler on key and value and leave the argument stack, depth and pool count as they were |
| Conf.SequenceItemKeepsStack | nc_conf.cpp:481-523 | an item inside a sequence runs the handler and pops only itself, staying in the sequence |
| Conf.ParseCoreEventFailure | nc_conf.cpp:440-444 | a failing yamlEventNext ends parseCore with NC_ERROR and an untouched parser |
| Conf.PopKeepsArgsValid | nc_conf.cpp:431-436 | popping keeps every argument a well-formed string |
| Conf.LeafKeepsArgsValid | nc_conf.cpp:510-524 | a leaf keeps every argument a well-formed string |
| Conf.StepKeepsArgsValid | nc_conf.cpp:438-532 | every event keeps every argument a well-formed string |
| Event.ResetIo | event/nc_event.h:233-252 | reset clears descriptor, events, error, address, every flag and both byte counters, setting family AF_INET and the sockaddr length; the connection type and owner are kept |
| Event.FirstNonEintr | event/nc_event.h:83-126 | the outcome the retry loop acts on is one of the call outcomes and is not EINTR |
| Event.Transfer | event/nc_event.h:79-231 | a wrapper returns exactly when some outcome is not EINTR, and what it returns is the settlement of the first such outcome |
| Event.Settle | event/nc_event.h:89-125 | a count of `k` returns `k` (capped by the buffer) and adds it to the byte counter, readiness surviving only a full transfer; zero bytes is end of stream for reads (ready cleared, eof set) and a stall for writes; EAGAIN returns NC_EVENT_EAGAIN and other errors NC_EVENT_ERROR with the errno kept, both clearing readiness; the socket's identity never changes |
| Event.Moved | event/nc_event.h:89-97 | a positive transfer keeps eof and the error, adds to the byte count and keeps readiness only for a full transfer |
| Event.Recv | event/nc_event.h:79-129 | recv returns at most `size` and at least NC_EVENT_EAGAIN; a positive count adds to the 64-bit received counter and keeps readiness iff the buffer was filled; zero sets eof; an error clears readiness without setting eof, and EAGAIN keeps the stored error |
| Event.Send | event/nc_event.h:131-179 | send returns at most `size`, never touches eof; a positive count adds to the sent counter with readiness kept iff everything went; zero or an error clears readiness |
| Event.Sendv | event/nc_event.h:182-231 | corrected sendv: readiness survives a write only when every byte of the vector went out |
| Event.SendvAsWritten | event/nc_event.h:182-231 | sendv as written compares the byte count with the number of iovecs, so readiness survives whenever at least that many bytes went |
| Event.SendvPartialWriteKeepsReady | event/nc_event.h:195-198 | writing 50 of 100 bytes from two iovecs leaves the socket send-ready as written, but not in the corrected sendv |
| Event.TransferRetriesEintr | event/nc_event.h:108-112 | interrupted calls in front of the outcomes change nothing: the call is retried |
| Epoll.AddInput | event/nc_epoll.cpp:66-91 | when reading is armed nothing is asked of the kernel; otherwise one EPOLL_CTL_MOD for EPOLLIN and EPOLLET is issued, its status returned, and reading counts as armed iff it succeeded |
| Epoll.DelInput | event/nc_epoll.cpp:93-97 | delInput asks for nothing, changes nothing and reports success |
| Epoll.AddOutput | event/nc_epoll.cpp:99-124 | when writing is armed nothing happens; otherwise one EPOLL_CTL_MOD for in, out and edge-triggered, writing armed iff it succeeded |
| Epoll.DelOutput | event/nc_epoll.cpp:126-151 | when writing is not armed nothing happens; otherwise one EPOLL_CTL_MOD back to input only, writing disarmed iff it succeeded |
| Epoll.ConnMask | event/nc_epoll.cpp:159-170 | the mask asks for EPOLLIN iff EVENT_READ is requested, EPOLLOUT iff EVENT_WRITE is, always EPOLLET, and nothing else |
| Epoll.AddConn | event/nc_epoll.cpp:153-185 | addConn issues one EPOLL_CTL_ADD with that mask; success arms both directions, failure changes nothing |
| Epoll.DelConn | event/nc_epoll.cpp:187-204 | delConn issues one EPOLL_CTL_DEL; success disarms both directions, failure changes nothing |
| Epoll.AddIsIdempotent | event/nc_epoll.cpp:66-124 | after a successful addInput or addOutput a second one asks the kernel for nothing and changes nothing |
| Epoll.AddOutputThenDelOutput | event/nc_epoll.cpp:99-151 | a successful addOutput followed by a successful delOutput leaves only the write-armed flag cleared |
| Epoll.Translate | event/nc_epoll.cpp:224-239 | EVENT_ERR iff EPOLLERR, EVENT_READ iff EPOLLIN or EPOLLHUP, EVENT_WRITE iff EPOLLOUT, and no other bit |
| Epoll.Dispatch | event/nc_epoll.cpp:221-248 | every callback made comes from a returned entry, at most one per entry |
| Epoll.DispatchAllConnections | event/nc_epoll.cpp:221-248 | when every entry has a connection, each entry in order calls its connection with the translated mask |
| Epoll.NullEntrySkipped | event/nc_epoll.cpp:244-247 | an entry without a connection is skipped and changes nothing else |
| Epoll.Wait | event/nc_epoll.cpp:206-270 | a batch of entries returns their count after dispatching them; an empty batch returns -1 for an infinite timeout and 0 otherwise; a failure other than EINTR returns -1; no callback runs unless entries came back |
| Epoll.WaitRetriesEintr | event/nc_epoll.cpp:263-266 | an interrupted epoll_wait is retried as if it had not happened |
| Kqueue.AddInput | event/nc_kqueue.cpp:83-99 | when reading is armed nothing changes; otherwise an EVFILT_READ EV_ADD EV_CLEAR change is queued and reading is armed |
| Kqueue.DelInput | event/nc_kqueue.cpp:101-115 | when reading is armed an EVFILT_READ EV_DELETE change is queued and reading disarmed; otherwise nothing changes |
| Kqueue.AddOutput | event/nc_kqueue.cpp:117-133 | the same for EVFILT_WRITE when writing is not armed |
| Kqueue.DelOutput | event/nc_kqueue.cpp:135-149 | the same deletion for EVFILT_WRITE when writing is armed |
| Kqueue.AddConn | event/nc_kqueue.cpp:151-164 | addConn arms each requested direction, adds at most two changes and touches nothing else |
| Kqueue.Neutralise | event/nc_kqueue.cpp:175-184 | neutralising keeps the length of the batch |
| Kqueue.NeutraliseFirstMatch | event/nc_kqueue.cpp:175-184 | either nothing changes, or exactly the first entry after the current one with the descriptor gets flags and filter 0; with no such entry nothing changes |
| Kqueue.NeutraliseKeepsPrefix | event/nc_kqueue.cpp:175 | entries at or before the one being processed are never touched |
| Kqueue.DelConn | event/nc_kqueue.cpp:166-187 | delConn disarms both directions and neutralises the first later pending entry for the descriptor, leaving the counters alone |
| Kqueue.Timespec | event/nc_kqueue.cpp:195-204 | a negative timeout blocks indefinitely; otherwise the timespec has whole seconds and a millisecond-aligned nanosecond part that add back to the timeout |
| Kqueue.Deliver | event/nc_kqueue.cpp:243-272 | an EV_ERROR entry with EBADF, EINVAL, ENOENT or EINTR is skipped; otherwise the mask has EVENT_ERR iff EV_ERROR, EVENT_READ iff the read filter, EVENT_WRITE iff the write filter |
| Kqueue.NeutralisedDeliversNothing | event/nc_kqueue.cpp:180-181 | a neutralised entry is not skipped but carries an empty mask |
| Kqueue.NeutraliseAll | event/nc_kqueue.cpp:175-184 | neutralising for several descriptors keeps the length of the batch |
| Kqueue.DispatchWith | event/nc_kqueue.cpp:226-281 | at most one callback per remaining entry; with the empty-mask guard no callback gets an empty mask |
| Kqueue.DispatchAsWritten | event/nc_kqueue.cpp:226-281 | the loop as written makes at most one callback per entry |
| Kqueue.Dispatch | event/nc_kqueue.cpp:226-281 | the loop with the guard makes at most one callback per entry and never one with an empty mask |
| Kqueue.CallbackAfterDelConn | event/nc_kqueue.cpp:175-184 | when a read callback closes a connection that also has a pending write entry, the loop as written still calls that connection with mask 0, while the guarded loop does not |
| Kqueue.WaitWith | event/nc_kqueue.cpp:189-303 | the first kevent call submits the queued changes and a retry after EINTR submits none; the change list ends empty; a non-empty batch returns its size after dispatching all of it; an empty batch returns -1 or 0 by the timeout; any other failure returns -1; no callback runs without entries; with the guard no callback gets an empty mask |
| Kqueue.Wait | event/nc_kqueue.cpp:189-303 | wait as written: a non-empty batch runs exactly the callbacks of the unguarded loop, neutralised entries included, and leaves the batch as that loop's delConn calls made it |
| Kqueue.WaitGuarded | event/nc_kqueue.cpp:189-303 | the intended wait: the same, with the guarded loop, and no callback ever receives an empty mask |
| Kqueue.WaitCallbackAfterDelConn | event/nc_kqueue.cpp:175-184 | through wait, a connection closed by its own read callback is still called with mask 0 by the loop as written and not by the guarded one |
| Kqueue.DispatchState | event/nc_kqueue.cpp:226-281 | the batch after the guarded dispatch has the same length |
| Kqueue.DispatchStateAsWritten | event/nc_kqueue.cpp:226-281 | the batch after the unguarded dispatch has the same length |
| Kqueue.StateFrom | event/nc_kqueue.cpp:226-281 | the batch from entry `i` on keeps its length |
| Pools.ServerSetConf | nc_server.h:76-89 | setConf copies name, address, pname and socket info, truncates the port to 16 bits and the weight to 32, and leaves the connection queue, retry time and failure count alone |
| Pools.NewServers | nc_server.cpp:124-129 | one server per configured server, in order, each configured from it |
| Pools.PoolSetConf | nc_server.cpp:100-130 | setConf zeroes the live count and rebuild time, copies the listen and limit fields (limits truncated to 32 bits, the retry timeout scaled from ms to µs), appends one server per configured one, and keeps every other field |
| Pools.NewServerPool | nc_server.h:132-136 | a new pool records its context and starts with one continuum point, nothing else initialised |
| Pools.SetConfAppends | nc_server.cpp:124-129 | applying setConf twice appends both server lists after the existing servers |
| Pools.WithServer | nc_server.cpp:32-78 | replaces one server record of the pool, nothing else |
| Pools.Failure | nc_server.cpp:32-78 | without auto-ejection nothing changes; below the failure limit (or with a negative clock) only the 32-bit failure count goes up; at the limit the count resets, the next retry is now plus the retry timeout, and the pool is rebuilt |
| Pools.FailuresBelowLimitOnlyCount | nc_server.cpp:44-54 | below the limit a failure adds one to this server's count and changes no retry time and no other server |
| Pools.TagBytes | nc_server.cpp:154-158 | the two hash-tag delimiters are the tag's first byte and its second, or NUL for a one-byte tag |
| Pools.HashedRange | nc_server.cpp:152-164 | the hashed part of the key is a sub-range of it; without a hash tag it is the whole key, and a narrowed range is non-empty |
| Pools.HashedRangeBetweenTags | nc_server.cpp:152-164 | with a tag, the key is narrowed to the bytes strictly between the first opening delimiter and the first closing one after it, when both are found by nc_strchr and something lies between them; otherwise the whole key is hashed |
| Pools.Index | nc_server.cpp:148-186 | index is the dispatch of the 32-bit hash of the hashed range, whatever the server count or key length |
| Pools.IndexHashesWholeKey | nc_server.cpp:148-186 | without a hash tag the whole key is hashed |
| Pools.PickServer | nc_server.cpp:133-141 | the server is chosen by index modulo the server count, so it always exists and an in-range index is taken as is |
| Hashkit.Refresh | nc_hashkit.cpp:16-39 | the liveness pass clears the retry time of exactly the servers whose time has come (with auto-ejection) and changes nothing else |
| Hashkit.RefreshKeepsLiveness | nc_hashkit.cpp:16-39 | with a working clock the liveness pass does not change which servers are live |
| Hashkit.LiveCount | nc_hashkit.cpp:16-41 | the live count is at most the server count, and all servers are live without auto-ejection |
| Hashkit.LiveCountRefresh | nc_hashkit.cpp:16-41 | the count taken after the pass equals the count before it |
| Hashkit.RebuildFrom | nc_hashkit.cpp:16-38 | the next_rebuild pass keeps its start value without auto-ejection, and any value it moves to is a retry time later than now |
| Hashkit.RebuildFromIsMin | nc_hashkit.cpp:26-29 | the running minimum stays non-negative, is zero only if nothing is ejected and it started at zero, is at most its start, comes from an ejected server when it moves, and bounds every ejected server's retry time |
| Hashkit.NextRebuildIsEarliestRetry | nc_hashkit.cpp:14-29 | next_rebuild is 0 exactly when no server is ejected, and otherwise the earliest retry time among the ejected servers |
| Hashkit.RandomFill | nc_hashkit.cpp:67-85 | the random fill has one slot per live server |
| Hashkit.RandomFillShape | nc_hashkit.cpp:67-83 | every slot of the random fill has value 0 and names a live server |
| Hashkit.RandomFillAscending | nc_hashkit.cpp:67-83 | the slots name servers in strictly increasing order, from the starting index on |
| Hashkit.RandomFillCoversLive | nc_hashkit.cpp:67-83 | every live server has a slot |
| Hashkit.ModulaFill | nc_hashkit.cpp:165-184 | the modula fill has as many slots as the live servers' total weight |
| Hashkit.ModulaFillShape | nc_hashkit.cpp:165-182 | every slot of the modula fill has value 0 and names a live server |
| Hashkit.SlotsConcat | nc_hashkit.cpp:173-181 | slot counts add over concatenation |
| Hashkit.SlotsRun | nc_hashkit.cpp:173-181 | a run of `n` slots for one server counts `n` for it and 0 for any other |
| Hashkit.SlotsAbsent | nc_hashkit.cpp:165-182 | a server no slot names has no slots |
| Hashkit.ModulaSlotsPerServer | nc_hashkit.cpp:165-182 | each live server gets exactly its weight in slots and each ejected server none |
| Hashkit.Overlay | nc_hashkit.cpp:77-78 | the fill overwrites the first slots of the continuum and keeps the rest |
| Hashkit.Surveyed | nc_hashkit.cpp:12-41 | after the first loop the servers are refreshed, the live count and next_rebuild are recorded, and the continuum is untouched |
| Hashkit.RandomUpdate | nc_hashkit.cpp:3-95 | a failed clock read returns NC_ERROR and changes nothing; otherwise NC_OK, with the continuum untouched when nothing is live and otherwise refilled with ncontinuum set to the fill's size |
| Hashkit.RandomUpdateFillsLiveServers | nc_hashkit.cpp:3-95 | after random_update ncontinuum equals the live count, every active slot has value 0 and names a live server, the slots are in increasing server order, and every live server is present |
| Hashkit.ModulaUpdate | nc_hashkit.cpp:97-194 | the same outcomes for modula_update, with the weighted fill |
| Hashkit.LiveWeightRefresh | nc_hashkit.cpp:135-138 | the live servers' total weight is the same before and after the liveness pass |
| Hashkit.ModulaUpdateWeighsServers | nc_hashkit.cpp:97-194 | after modula_update ncontinuum is the live servers' total weight, every active slot names a live server with value 0, and each server holds as many slots as its weight when live and none when ejected |
| RbTree.InOrder | nc_rbtree.h:22-50 | the in-order listing is empty exactly for the empty tree |
| RbTree.HasIdConcat | nc_rbtree.h:22-50 | an identity occurs in a concatenation exactly when it occurs in one of the parts |
| RbTree.ContainsInOrder | nc_rbtree.h:22-50 | a node with a given identity is in the tree exactly when its in-order listing has an entry with that identity |
| RbTree.Min | nc_rbtree.h:66-83 | min() is absent exactly for the empty tree, and otherwise is the first entry of the in-order listing |
| RbTree.MinIsLeast | nc_rbtree.h:66-83 | in a search tree min() has the least key of all entries |
| RbTree.RotateLeft | nc_rbtree.h:108-142 | a left rotation keeps the in-order listing |
| RbTree.RotateRight | nc_rbtree.h:145-179 | a right rotation keeps the in-order listing |
| RbTree.RotationsInverse | nc_rbtree.h:108-179 | a right rotation undoes a left rotation |
| RbTree.StepKeepsInOrder | nc_rbtree.h:218-270 | one rotation or recolouring anywhere in the tree keeps the in-order listing |
| RbTree.RotationsKeepInOrder | nc_rbtree.h:218-270 | any sequence of rotations and recolourings keeps the in-order listing |
| RbTree.Fix | nc_rbtree.h:218-270 | the insertion repair keeps a node a node, changes only a black grandparent, and a recoloured result has black children |
| RbTree.FixLeft | nc_rbtree.h:220-244 | red uncle: the grandparent turns red over two black children; black uncle: after the rotations a black node sits over two red children |
| RbTree.FixRight | nc_rbtree.h:245-268 | the mirror image of FixLeft with the red pair on the right |
| RbTree.FixLeftKeepsInOrder | nc_rbtree.h:220-244 | the insertion repair for a red pair under a left child keeps the in-order listing |
| RbTree.FixRightKeepsInOrder | nc_rbtree.h:245-268 | the mirror-image repair keeps the in-order listing |
| RbTree.FixKeepsInOrder | nc_rbtree.h:218-270 | the insertion repair, whichever case applies, keeps the in-order listing |
| RbTree.InsertSorted | nc_rbtree.h:196-210 | the reference insertion into a sorted listing adds exactly one entry |
| RbTree.InsertSortedMultiset | nc_rbtree.h:196-210 | the reference insertion adds exactly the new entry to the multiset of entries |
| RbTree.Ins | nc_rbtree.h:182-216 | the descent-and-attach step yields a non-empty tree |
| RbTree.Insert | nc_rbtree.h:182-271 | after insert the tree is non-empty and its root is black |
| RbTree.InsertSortedBefore | nc_rbtree.h:196-210 | inserting before a strictly greater suffix leaves that suffix alone |
| RbTree.InsertSortedAfter | nc_rbtree.h:196-210 | inserting after a prefix of keys no greater leaves that prefix alone |
| RbTree.SortedParts | nc_rbtree.h:196-210 | in a sorted listing around a node, both sides are sorted and bound the node's key |
| RbTree.InsLeftStep | nc_rbtree.h:200-203 | descending left (key strictly less) agrees with the reference insertion |
| RbTree.InsRightStep | nc_rbtree.h:200-203 | descending right (key equal or greater) agrees with the reference insertion |
| RbTree.InsInOrder | nc_rbtree.h:182-216 | in a search tree the attach step inserts the entry where the reference insertion puts it |
| RbTree.InsertSortedMembers | nc_rbtree.h:196-216 | the reference insertion's entries are the old ones plus the new one |
| RbTree.InsertSortedKeepsSorted | nc_rbtree.h:196-216 | the reference insertion keeps a listing sorted |
| RbTree.InsertKeepsOrder | nc_rbtree.h:182-271 | insert keeps a search tree a search tree, adds exactly the new entry, and places it after every equal key |
| RbTree.ExtractMin | nc_rbtree.h:296-300 | taking out the leftmost node splits the listing into its first entry and the rest |
| RbTree.Splice | nc_rbtree.h:286-378 | splicing a node out leaves its two subtrees' listings in order |
| RbTree.Without | nc_rbtree.h:274-378 | dropping an identity never lengthens a listing |
| RbTree.WithoutConcat | nc_rbtree.h:274-378 | dropping an identity distributes over concatenation |
| RbTree.WithoutAbsent | nc_rbtree.h:274-378 | dropping an identity that is absent changes nothing |
| RbTree.WithoutSubseq | nc_rbtree.h:274-378 | what is left after dropping an identity is old and of another identity |
| RbTree.WithoutKeepsSorted | nc_rbtree.h:274-378 | dropping an identity keeps a listing sorted |
| RbTree.DistinctParts | nc_rbtree.h:274-378 | with distinct identities the two sides of a node share none and neither holds the node's |
| RbTree.DelInOrder | nc_rbtree.h:274-378 | with distinct identities, deleting a node removes exactly its entry from the listing |
| RbTree.WithoutAround | nc_rbtree.h:274-378 | dropping an identity around a node drops it on each side and from the node |
| RbTree.Remove | nc_rbtree.h:274-378 | removing an absent message leaves the tree unchanged |
| RbTree.DelAbsent | nc_rbtree.h:274-378 | the splice-out walk changes nothing when the identity is absent |
| RbTree.RemoveKeepsOrder | nc_rbtree.h:274-378 | corrected remove keeps a search tree a search tree, removes exactly the message's entry, and leaves no node of that identity |
| RbTree.Find | nc_rbtree.h:274-378 | the located node carries the requested identity |
| RbTree.DelIsReplaceAt | nc_rbtree.h:286-378 | deleting is splicing the located node out in place |
| RbTree.RemoveAsWritten | nc_rbtree.h:274-378 | the as-written removal leaves a tree without the node unchanged, and for a node with at most one child agrees with the corrected removal |
| RbTree.MinHasNoLeft | nc_rbtree.h:66-83 | min() names a node of the tree, and it is the root when the root has no left child |
| RbTree.MinNodeHasNoLeft | nc_rbtree.h:66-83 | with distinct identities, the node min() names is in the tree and has no left child, so removing it is a one-child removal |
| RbTree.SampleTreeShape | nc_rbtree.h:274-378 | the sample is a search tree with distinct identities, holding a two-child node 40 as the root's right child |
| RbTree.SampleRemoveAsWritten | nc_rbtree.h:296-378 | removing node 40 as written grafts the whole tree's minimum in its place |
| RbTree.SampleRemove | nc_rbtree.h:296-378 | removing node 40 with the subtree's successor gives the expected tree |
| RbTree.RemoveAsWrittenBreaksOrder | nc_rbtree.h:296-300 | the as-written removal of node 40 from the sample gives keys 2, 3, 1, 5, which is not a search tree |
| RbTree.RemoveKeepsSampleOrder | nc_rbtree.h:296-378 | the corrected removal gives keys 1, 2, 3, 5, a search tree |
| ObjectPool.EmptyPool | nc_core.h:92-93 | a new pool has an empty free queue, a zero free count and no current object |
| ObjectPool.Alloc | nc_core.h:109-125 | alloc pops the front of the free queue when there is one and otherwise hands out the newly made object; either way it becomes current, and the free count is not decremented |
| ObjectPool.Free | nc_core.h:127-136 | freeing NULL changes nothing; freeing an object queues it at the back and bumps the 32-bit free count, leaving current alone |
| ObjectPool.AllocReturnsFreed | nc_core.h:109-136 | from an empty free queue, alloc after free returns the freed object and empties the queue again |
| ObjectPool.AllocIsFifo | nc_core.h:109-136 | the free queue is first-in first-out: alloc returns the oldest freed object and the new one waits at the back |
| ObjectPool.DoubleFreeQueuesTwice | nc_core.h:127-136 | freeing the same object twice queues it twice, since free does not check |
| Message.WfSegsOk | nc_message.h:40-148 | in a well-formed world every message's segments exist and are well formed |
| Message.SegsOkLive | nc_message.h:40-148 | a message with well-formed segments has a live segment queue |
| Message.ContentsLength | nc_message.h:40-148 | a segment queue's content is exactly as long as the sum of its segments' lengths |
| Message.ContentsFrame | nc_message.h:40-148 | a queue's content and length depend only on the segments it names |
| Message.DistinctPush | nc_message.cpp:13-16 | pushing a segment not yet queued keeps the queue free of duplicates |
| Message.Back | nc_message.cpp:124-129 | the back of a segment queue is NULL exactly when the queue is empty, and otherwise its last segment |
| Message.ContentsReplaceBack | nc_message.cpp:21-34 | replacing a queue's last segment (queued once) changes only the last part of its content |
| Message.CopyIntoBack | nc_message.cpp:21-34 | copying bytes that fit into the last segment appends exactly those bytes to the message content |
| Message.CopyIntoPushed | nc_message.cpp:21-34 | copying bytes into a fresh empty segment pushed at the back appends exactly those bytes |
| Message.EnsureMbufAsWritten | nc_message.cpp:5-19 | as written, ensureMbuf re-pushes the front segment when that segment is too small, and otherwise allocates and pushes a new one |
| Message.EnsureMbuf | nc_message.cpp:5-19 | intended ensureMbuf returns the back segment unchanged when it has room; otherwise it allocates from the pool and pushes what it got; no other message or segment changes |
| Message.Append | nc_message.cpp:21-34 | a successful append adds the byte count to the 32-bit message length |
| Message.WriteSeg | nc_message.cpp:30-31 | the copy step writes only the chosen segment and the message length |
| Message.AppendAsWritten | nc_message.cpp:21-34 | as written, an append longer than the room in the front segment runs past that segment's end |
| Message.AllocMbufClean | nc_message.cpp:10 | a segment from a clean pool is valid, empty and not already in the message |
| Message.AppendAddsContent | nc_message.cpp:21-34 | a successful intended append makes the message content the old content followed by the appended bytes, and its total length grows by their count |
| Message.EnsureMbufAsWrittenDuplicates | nc_message.cpp:5-19 | as written, a message whose only segment is full gets that segment queued twice, and appending one byte overruns it |
| Message.EnsureMbufKeepsDistinct | nc_message.cpp:5-19 | the intended ensureMbuf never queues a segment twice |
| Message.EnsureMbufPushesNew | nc_message.cpp:8-16 | when the back segment lacks room, the pushed segment is new to the queue |
| Message.EnsureMbufHasRoom | nc_message.cpp:8-11 | a returned segment that was already queued has room for the requested length |
| Message.PreAppend | nc_message.cpp:36-50 | preAppend fails with NC_ENOMEM when the pool yields nothing, and on success pushes the new segment and adds the byte count to the length |
| Message.AllocMbufPushed | nc_message.cpp:36-44 | a segment the pool hands out exists and can be pushed on the message's queue, which then still names only live segments |
| Message.PreAppendAddsContent | nc_message.cpp:36-50 | a successful preAppend appends exactly the given bytes to the message content |
| Message.SplitBack | nc_message.cpp:145 | splitting the back segment at the parse position replaces it by the head half and adds the tail half as a new segment |
| Message.ParseDone | nc_message.cpp:119-175 | parseDone returns NC_ENOMEM with no segments, hands the whole message on when the parse position is at the end, returns NC_ENOMEM without a spare segment, and otherwise hands a freshly allocated message on with this one as the previous |
| Message.SplitBackMap | nc_message.cpp:145-166 | the split conserves bytes: head content followed by tail content is the old content, and the tail segment starts at 0 |
| Message.SplitBackContents | nc_message.cpp:145-166 | the same conservation stated on the world |
| Message.ParseDoneConserves | nc_message.cpp:145-172 | when parseDone splits, this message keeps its segments, the new message gets the one tail segment with its whole length, the two contents together are the old content, and the two lengths add up to the old one |
| Message.ParseDoneNoMsgDropsTail | nc_message.cpp:154-160 | when no message can be allocated, the tail segment goes back to the pool and its unparsed bytes are lost from the message |
| Message.RepairDone | nc_message.cpp:177-198 | repairDone fails with NC_ERROR with no segment, with NC_ENOMEM without a spare segment, and otherwise pushes the tail segment and moves the parse position to its start |
| Message.RepairDoneKeepsContent | nc_message.cpp:177-198 | a successful repairDone keeps the message content and length |
| Message.Parse | nc_message.cpp:76-117 | an empty message is handed on as-is; otherwise the connection's eof flag is set and the parse result selects parseDone, repairDone, a plain NC_OK, or NC_ERROR with the connection's error set |
| Message.ParseStatus | nc_message.cpp:116 | after a parse the connection's error, when set, overrides the status with NC_ERROR |
| Message.RequestFilter | nc_message.cpp:200-235 | a request is filtered exactly when it is empty or a quit; a filtered request is freed, a quit also sets eof and clears recv-ready, and an unfiltered one changes nothing |
| Message.FilterConsumes | nc_message.cpp:200-235 | a filtered request goes back to the message pool, leaves the timeout index and loses its segments |
| Message.RequestForwardError | nc_message.cpp:278-309 | a failed forward marks the request done and in error with errno; a noreply request is freed, otherwise output is re-armed on the client and a failure there records the second errno |
| Message.RequestMakeReply | nc_message.cpp:311-330 | without a message from the pool the request records errno and returns NC_ENOMEM; otherwise request and reply point at each other, the request is done and queued on the connection's outstanding queue |
| Message.RequestMakeReplyFrame | nc_message.cpp:311-330 | requestMakeReply changes only messages, the message pool and the connection's outstanding queue |
| Message.MakeReplyThenFreeReleasesBoth | nc_message.cpp:311-330 | freeing a request that got a reply returns both reply and request to the pool and unlinks them |
| Message.WfLiveTargets | nc_message.cpp:237-276 | a well-formed world's servers and their connections exist |
| Message.GetConnLive | nc_message.cpp:251 | the server connection handed out exists, and no connection disappears |
| Message.ForwardTarget | nc_message.cpp:241-251 | forwarding queues the request on the client's outstanding queue unless it is noreply, then asks the chosen server for a connection |
| Message.Deliver | nc_message.cpp:258-272 | when the server's input queue is empty output is armed first, and a failure there ends in requestForwardError with the server's error set; otherwise the request joins the server's input queue |
| Message.RequestForward | nc_message.cpp:237-276 | the request joins the client's outstanding queue exactly when a reply is expected; it lands at the tail of the picked server connection's input queue, whose write interest is asked only when that queue was empty; with no server connection, or when that asking fails, the request ends done and in error |
| Message.GetConnKeepsConns | nc_server.cpp:5-30 | getConn leaves existing connections, messages and the context flag alone |
| Message.ForwardTargetKeeps | nc_message.cpp:241-251 | the target step keeps the client, the request and the context |
| Message.ForwardErrorKeepsQueues | nc_message.cpp:278-309 | a failed forward touches no connection's queues |
| Message.ForwardErrorMarks | nc_message.cpp:287-289 | after a failed forward the request is done and in error |
| Message.DeliverQueues | nc_message.cpp:258-272 | delivery appends the request to the server's input queue unless arming output fails on an empty queue, when the request ends done and in error; a non-empty queue is not re-armed |
| Message.DeliverKeepsOthers | nc_message.cpp:258-272 | delivery leaves every other connection's outstanding queue alone |
| Message.ForwardClientQueue | nc_message.cpp:243-276 | whether the forward fails or is delivered to another connection, the client's outstanding queue gains the request exactly when a reply is expected |
| Store.MsgReset | nc_core.h:238-250 | reset takes the next message id and advances the generator past it; it clears peer, length, position, error, rbnode key and data, stamps the start time and sets the HTTP protocol, and keeps segments and flags |
| Store.ResetIdsIncrease | nc_util.h:487-491 | messages reset one after another get strictly increasing ids |
| Store.SetLength | nc_core.h:262-265 | setLength stores the length as a uint32 and changes nothing else |
| Store.SetLengthEmpty | nc_core.h:262-270 | after setLength a message is empty exactly when the length set was 0 |
| Store.FreeAll | nc_core.h:127-136 | freeing a run of objects queues them in order and bumps the free count by their number |
| Store.FreeMbuf | nc_message.cpp:332-346 | without a context freeMbuf does nothing; otherwise the message's segments go to the pool in queue order and its queue empties, and nothing else changes |
| Store.ConnReset | nc_connection.h:73-84 | reset closes the descriptor field (-1), clears the event state, owner, connecting, connected, authenticated and both current messages, and keeps the queues, timeout and role |
| Store.ConnResetIdempotent | nc_connection.h:73-84 | resetting twice is resetting once |
| Store.EnqueueInput | nc_server.h:238-241 | only a server connection has an input queue: it appends there, and the base hook does nothing |
| Store.DequeueInput | nc_server.h:243-246 | a server connection removes the message from its input queue; the others do nothing |
| Store.EnqueueOutput | nc_client.h:14-18 | client and server connections append to their outstanding queue; a proxy does nothing |
| Store.DequeueOutput | nc_client.h:20-24 | client and server connections remove the message from their outstanding queue; a proxy does nothing |
| Store.EnqueueThenDequeueInput | nc_server.h:238-246 | enqueueInput then dequeueInput of a message not yet queued leaves the connection as it was |
| Store.EnqueueThenDequeueOutput | nc_client.h:14-24 | the same round trip for the outstanding queue |
| Store.HooksTouchOwnQueue | nc_connection.h:108-118 | each hook touches only its own queue, and the roles without an override change nothing |
| Store.Active | nc_client.cpp:40-63 | a proxy is always active; a client is active exactly with pending input or a current message; a server also counts its outstanding queue |
| Store.ClientIdleWithOutstanding | nc_server.cpp:226-255 | a client with only outstanding requests is idle, while a server in the same state is active |
| Store.Unlinked | nc_rbtree.h:274-378 | a message the timeout index holds loses its rbnode key and data on removal; one it does not hold is returned unchanged, since remove returns early for an unlinked node; no other field moves |
| Store.Untimed | nc_rbtree.h:274-378 | removing a message from the timeout index applies the as-written removal to the tree; only a message the index holds has its rbnode key and data cleared, and removing one it does not hold changes nothing |
| Store.DetachPeer | nc_connection.cpp:382-389 | the peer is unlinked both ways, its segments and then the peer itself go to the pools, and no other message changes |
| Store.ForceDetach | nc_connection.cpp:380-393 | the forced part of freeMsg releases the peer as above, when there is one, and removes the message from the timeout index |
| Store.ForceDetachOwn | nc_connection.cpp:380-393 | after the forced part of freeMsg the message has no peer, its rbnode is cleared only if the index held it, and its other fields are kept |
| Store.ForceDetachPeer | nc_connection.cpp:382-389 | the released peer ends with no peer link and no segments |
| Store.FreeOwn | nc_connection.cpp:395-396 | the message's segments and then the message itself go to the pools |
| Store.FreeMsg | nc_connection.cpp:368-397 | without an owner freeMsg does nothing; otherwise the message's segments and the message are pooled, and when forced the peer is released first and the message leaves the timeout index |
| Store.FreeMsgKeepsFlags | nc_connection.cpp:368-397 | freeing keeps the message's done and error flags |
| Store.WfAfterMsgEdit | nc_core.h:86-291 | editing messages, pools and the tree keeps the world well formed when every reference still resolves |
| Store.FreeMbufKeepsWf | nc_message.cpp:332-346 | freeMbuf keeps the world well formed |
| Store.FreeOwnKeepsWf | nc_connection.cpp:395-396 | freeing a message keeps the world well formed |
| Store.UnlinkKeepsWf | nc_connection.cpp:385-386 | unlinking two peers keeps the world well formed |
| Store.FreeMsgRefKeepsWf | nc_core.h:127-136 | pooling a message reference keeps the world well formed |
| Store.DetachPeerKeepsWf | nc_connection.cpp:382-389 | releasing a peer keeps the world well formed |
| Store.UntimedKeepsWf | nc_connection.cpp:391-392 | removal from the timeout index keeps the world well formed |
| Store.ForceDetachKeepsWf | nc_connection.cpp:380-393 | the forced part of freeMsg keeps the world well formed and its peers linked both ways |
| Store.FreeMsgKeepsWf | nc_connection.cpp:368-397 | freeMsg keeps the world well formed |
| Store.AllocMsg | nc_core.h:109-125 | alloc from the message pool reuses the oldest freed message, and otherwise adds the newly made blank message |
| Store.AllocMbuf | nc_core.h:109-125 | alloc from the segment pool reuses the oldest freed segment, and otherwise adds a fresh empty segment of the chunk size |
| Store.SetConnPool | nc_core.h:86-145 | replacing one connection pool changes nothing else |
| Store.AllocConn | nc_core.h:109-125 | alloc from a connection pool reuses the oldest freed connection, or adds the newly constructed one, and touches no other pool |
| Store.FreeConn | nc_core.h:127-136 | freeing a connection queues it on its pool and bumps the 32-bit free count, changing nothing else |
| Store.AllocMsgKeepsWf | nc_core.h:109-125 | message allocation keeps the world well formed and returns a message that exists |
| Store.AllocMbufKeepsWf | nc_core.h:109-125 | segment allocation keeps the world well formed and returns a segment that exists |
| Store.AllocConnKeepsWf | nc_core.h:109-125 | connection allocation keeps the world well formed and returns a connection that exists |
| Store.FreeConnKeepsWf | nc_core.h:127-136 | freeing a connection keeps the world well formed |
| Store.WithConnKeepsWf | nc_connection.h:64-160 | a well-formed connection record keeps the world well formed |
| Store.WithMsgKeepsWf | nc_core.h:235-291 | a well-formed message record keeps the world well formed |
| Servers.Head | nc_server.cpp:25 | the front of the connection queue, NULL when the queue is empty |
| Servers.GetConn | nc_server.cpp:5-30 | without a context getConn returns NULL; below the per-server connection limit it allocates from the server-connection pool; at the limit it hands out the front of the connection queue and moves it to the back |
| Servers.GetConnRotates | nc_server.cpp:25-29 | at the limit getConn is a rotation: the front entry is returned and the queue becomes its tail followed by it, and an empty queue yields NULL and gains a NULL entry |
| Servers.RotateFront | nc_server.cpp:25-27 | removing the front entry and pushing it again moves it to the back |
| Servers.NameOf | nc_server.cpp:193 | the resolver sees the server's address string |
| Servers.Ref | nc_server.cpp:188-211 | ref resolves the address, marking the connection EHOSTDOWN and done on failure, copies the address into the connection, bumps the 32-bit connection count, queues the connection on the server, and sets the owner, with nothing else changed |
| Servers.Unref | nc_server.cpp:213-224 | unref clears the owner, decrements the 32-bit count and takes the connection off the server's queue |
| Servers.RefThenUnref | nc_server.cpp:188-224 | unref undoes ref: the server's queue and count are restored, the connection has no owner, and other servers are untouched |
| Servers.Attempt | nc_server.cpp:295-355 | the connect attempt fails unless the socket, the non-blocking switch and the event registration all succeed and connect returns 0 or EINPROGRESS; it is connected exactly when connect returned 0 |
| Servers.OpenedIo | nc_server.cpp:295-331 | the connection takes the new descriptor, and registration turns on both directions |
| Servers.Open | nc_server.cpp:267-360 | connect fails at once on a recorded error and is a no-op with a descriptor; otherwise it succeeds exactly as the attempt does, setting connected or connecting, and on failure records errno |
| Servers.Connect | nc_server.cpp:267-360 | connect on a connection of the world replaces only that connection's record |
| Servers.ConnectThenConnect | nc_server.cpp:284-288 | after a successful connect a second connect is an NC_OK no-op |
| Servers.FailedConnectSticks | nc_server.cpp:277-282 | after a failed connect every later connect returns NC_ERROR and changes nothing |
| Servers.PickNext | nc_server.cpp:362-420 | sendNext first finishes a pending connect; with an empty input queue it returns NULL and drops output interest (recording errno on failure); otherwise it returns the head when nothing is being sent and the second message when something is, storing the choice as the message in flight |
| Servers.SendNext | nc_server.cpp:362-420 | sendNext on the world replaces only the connection's record |
| Servers.SendNextTakesHead | nc_server.cpp:378-419 | with nothing in flight, sendNext picks the head of the input queue |
| Servers.SendNextStopsAtSecond | nc_server.cpp:394-406 | without sendDone in between, repeated sendNext on three queued requests yields the first, then the second, then the second again |
| Servers.SendDone | nc_server.cpp:422-444 | sendDone moves the request from the input queue to the outstanding queue, or frees it when it is noreply |
| Servers.SendDoneMovesRequest | nc_server.cpp:422-444 | a request expecting a reply moves between the two queues: together they hold the same messages, and the request is at the back of the outstanding queue |
| Servers.RecvNext | nc_server.cpp:446-491 | at end of file recvNext discards a partial reply without forcing, marks the connection done and returns NULL; otherwise it returns the current reply, NULL without alloc, or a message from the pool that becomes current |
| Servers.RecvNextAtEofKeepsWf | nc_server.cpp:456-469 | the end-of-file path keeps the world well formed |
| Servers.RecvNextAtEof | nc_server.cpp:456-469 | after end of file a second recvNext returns NULL and changes nothing more |
| Servers.RecvDone | nc_server.cpp:493-499 | recvDone makes the given message the connection's current reply |
| Client.Ref | nc_client.cpp:6-21 | ref makes the pool the owner, clears the peer address, bumps the pool's 32-bit client count and queues the connection on the pool, with nothing else changed |
| Client.Unref | nc_client.cpp:23-38 | unref clears the owner, decrements the 32-bit count (even at zero, which the source only logs) and takes the connection off the pool's queue, with nothing else changed |
| Client.RefThenUnref | nc_client.cpp:6-38 | unref undoes ref on the pool: its queue and count are restored and the connection has no owner |
| Client.UnrefAtZeroWraps | nc_client.cpp:29-33 | unref with a zero count logs and decrements anyway, so the unsigned count wraps to 2^32-1 |
| Client.FreeForced | nc_connection.cpp:368-397 | the default (forced) freeMsg pools the peer, when there is one, and then the message, takes the message out of the timeout index by the as-written removal, empties its segments and peer link, and changes no other message |
| Client.FreeForcedIsFreeMsg | nc_connection.cpp:368-397 | on an owned connection the forced free is the general freeMsg with force set |
| Client.FreeForcedSame | nc_connection.cpp:380-397 | a forced free changes message records only by dropping segments, peer links, and rbnode key and data |
| Client.DiscardOne | nc_client.cpp:93-113 | one step of close's walk frees a done request together with its reply and marks an unfinished one swallow, changing nothing else in that case |
| Client.DiscardOneSame | nc_client.cpp:93-113 | a step changes message records only by freeing them |
| Client.Discard | nc_client.cpp:90-114 | walking the outstanding queue keeps every message and only frees them; the free list only grows, and when no request is another's reply the released messages are exactly the done ones with their replies, in queue order |
| Client.DiscardStep | nc_client.cpp:90-114 | the walk is its first step followed by the walk of the rest of the queue |
| Client.DiscardSwallows | nc_client.cpp:106-113 | every unfinished request of the queue ends marked swallow |
| Client.DiscardEmpties | nc_client.cpp:98-105 | every done request of the queue ends with no segments |
| Client.DiscardKeepsOthers | nc_client.cpp:90-114 | a message outside the queue, and no request's reply, is untouched by the walk |
| Client.DiscardOneKeepsRest | nc_client.cpp:90-114 | a step leaves the records of the rest of a separate queue as they were |
| Client.DiscardPoolStep | nc_client.cpp:90-114 | the released list of the whole queue is the first step's release followed by that of the rest |
| Client.NoPeerAfterStep | nc_client.cpp:90-114 | a step keeps a message outside the queue and gives no later request that message as its reply |
| Client.ReleasedFrame | nc_client.cpp:98-113 | what the walk releases depends only on the done flags and peers of the queue |
| Client.ReleasedHoldsDone | nc_client.cpp:98-105 | every done request of the queue is among the released messages |
| Client.SameButFreedTrans | nc_connection.cpp:368-397 | two rounds of freeing compose into one |
| Client.PeersInAfter | nc_connection.cpp:368-397 | after freeing, every queued request still exists together with its reply |
| Client.DropRmsg | nc_client.cpp:80-88 | close first clears the message being received; when there is one it is freed with its peer and leaves the timeout index, and no other message changes |
| Client.DropRmsgSame | nc_client.cpp:80-88 | dropping the message being received only frees records and keeps the outstanding queue's requests with their replies |
| Client.DropRmsgKeepsQueue | nc_client.cpp:80-114 | when the message being received is outside the outstanding queue, dropping it does not change what the walk will release |
| Client.Release | nc_client.cpp:116-125 | the tail of close unrefs the connection, sets the descriptor to -1 and returns it to the client pool, changing no message |
| Client.DropAll | nc_client.cpp:80-114 | the message steps of close clear the message being received and leave the pools untouched |
| Client.DropAllFrees | nc_client.cpp:80-114 | the message steps of close free the message being received with its peer, and then exactly the released part of the outstanding queue, in that order |
| Client.CloseOpen | nc_client.cpp:80-125 | closing an open client leaves it without owner, message being received or descriptor |
| Client.CloseOpenPools | nc_client.cpp:116-125 | closing an open client returns it to the client pool and decrements the pool's count |
| Client.CloseOpenFrees | nc_client.cpp:80-125 | closing an open client frees the message being received with its peer, then the done requests with their replies |
| Client.CloseShut | nc_client.cpp:73-78 | closing a client with no descriptor only unrefs it and returns it to the pool |
| Client.Close | nc_client.cpp:66-126 | close always unrefs the connection, closes it and returns it to the pool and keeps its queues; without a descriptor it changes no message, otherwise it discards the pending messages |
| Client.CloseKeepsOthers | nc_client.cpp:66-126 | close changes no other connection and no other connection pool |
| Client.CloseKeepsLinks | nc_client.cpp:66-126 | close keeps every message and changes records only by freeing them |
| Client.CloseMarksOutstanding | nc_client.cpp:90-114 | after close, each outstanding request is emptied if it was done and marked swallow if it was not |
| Client.RecvNext | nc_client.cpp:128-185 | at end of file recvNext frees the message being received, marks the connection done when nothing else is active and returns NULL; otherwise it returns the current message, or NULL when allocation is off, or a newly allocated message owned by this connection, recording errno when the pool is empty |
| Client.RecvAtEof | nc_client.cpp:136-161 | the end-of-file branch returns NULL, clears the message being received (freeing it and its peer) and sets done exactly when the connection is no longer active |
| Client.RecvAlloc | nc_client.cpp:174-184 | the allocation branch takes from the message pool; on failure it records errno, on success it stores the message as the one being received with this connection as its data |
| Client.RecvNextAtEofIdle | nc_client.cpp:136-160 | a client at end of file with no input and nothing being sent is done after recvNext |
| Client.RecvNextKeepsCurrent | nc_client.cpp:164-167 | once recvNext has allocated a message, the next call returns that same message |
| Client.LocalReply | nc_client.cpp:203-226 | with a reply message from the pool the request is done, linked both ways to it and queued at the back of the outstanding queue; without one the queue is as it was and the request and client hold errno; the message being received, owner and pool are kept |
| Client.AnswerIo | nc_client.cpp:203-226 | the client keeps the errno of the first failing step; after a reply is made and sent, writing is armed unless a first arming fails |
| Client.RecvDone | nc_client.cpp:187-242 | an empty or quit request is consumed: back in the message pool with no segments, the outstanding queue unchanged, and no more reading after a quit; a noforward request is queued when a reply can be made; a forwarded one is queued when a reply is expected and ends done and in error with no server connection; unless forwarded, the given message is the one being received |
| Client.Settle | nc_client.cpp:260-274 | with nothing to send, the connection becomes done at end of file and output interest is dropped, recording errno when the drop fails; queues and current messages are kept |
| Client.SettleTwice | nc_client.cpp:260-274 | settling twice is settling once when the first drop succeeded |
| Client.SendNext | nc_client.cpp:244-295 | without a context sendNext returns NULL; with an empty outstanding queue it settles the connection and returns NULL; otherwise it returns the reply in flight, unchanged |
| Client.SendNextIdleSettles | nc_client.cpp:256-274 | on an idle client a second sendNext after a successful drop changes nothing more |
| Client.SendDone | nc_client.cpp:297-305 | sendDone takes the reply's request off the outstanding queue (a proxy has none) and frees it by the forced freeMsg; on an owned connection the request and its reply are pooled and the request leaves the timeout index |
| Client.ReplySentRestoresQueue | nc_client.cpp:203-305 | after a local reply is made and sent, the client's outstanding queue is back to what it was before the request |
| Connection.Callback | nc_connection.cpp:77-120 | without a context callback returns NC_OK and does nothing; an error event runs the error path and closes; otherwise a read event runs recv, a write event runs send unless recv already failed, the connection is closed exactly once and last when either failed, and the result is NC_OK exactly when nothing failed |
| Connection.Steps | nc_connection.cpp:92-119 | the branch order of callback on abstract flags: an error event closes at once, read comes before write, and a failed step closes and stops |
| Connection.RoleClose | nc_connection.cpp:74 | the role's close keeps the event flags and error; a client or proxy ends with no owner and no descriptor and goes back to its pool (the proxy slot is cleared), and the server's close changes nothing |
| Connection.ClientClose | nc_client.cpp:66-126 | closing a client keeps its event flags and error, leaves it without owner and descriptor and returns it to the client pool |
| Connection.ProxyClose | nc_proxy.cpp:45-67 | closing the proxy keeps its event flags and error, leaves it without owner and descriptor, returns it to the proxy pool and clears the pool's proxy slot |
| Connection.ProcessClose | nc_connection.cpp:47-75 | processClose drops the connection from the event set (clearing both directions only when that succeeds) and then runs the role's close; the error is kept, and a server keeps its descriptor and changes only its event state |
| Connection.ProcessError | nc_connection.cpp:5-17 | processError records errno on the connection and then closes it |
| Connection.Drive | nc_connection.cpp:122-167 | recvMsg and sendMsg run rounds until a NULL message, a failed chain or a chain that clears the ready flag; the status is NC_OK exactly when every round run succeeded, a failure is the status of the last round run, and every round before the last left the flag set |
| Connection.DriveStopsWhenNotReady | nc_connection.cpp:127-140 | the loop stops right after the first successful chain that clears the ready flag |
| Connection.SendMsg | nc_proxy.cpp:88-93 | the proxy's sendMsg is a no-op NC_OK; the other roles drive the send loop, succeeding exactly when every round run succeeded |
| Connection.ReadSegment | nc_connection.cpp:177-192 | recvChain reads into the back segment unless there is none or it is full, in which case it allocates one, pushes it and moves the message's position to it; allocation failure leaves the message as it was, and no other message or existing segment changes |
| Connection.ReadStatus | nc_connection.cpp:182-205 | no segment gives NC_ENOMEM; a negative read count gives NC_OK for EAGAIN and NC_ERROR otherwise; a count of 0 or more carries on to parsing |
| Connection.ReadInto | nc_connection.cpp:194-208 | the read fills at most the segment's free room; a failed read changes no segment or message; a read of n bytes appends exactly those bytes at the segment's last and sets the message length to n as a uint32 |
| Connection.ReadChain | nc_connection.cpp:177-208 | recvChain first chooses the segment and then reads into it, returning NC_ENOMEM when no segment could be had |
| Connection.GrowBack | nc_connection.cpp:207 | bytes added to the back segment are added at the end of the message's contents |
| Connection.ReadIntoBackAppends | nc_connection.cpp:194-208 | reading into the back segment appends the bytes read to the message's contents |
| Connection.ReadSegmentClean | nc_connection.cpp:177-192 | choosing the segment keeps the message's contents and its segments distinct |
| Connection.ReadSegmentPushes | nc_connection.cpp:179-192 | pushing a fresh segment keeps the message's contents and its segments distinct |
| Connection.ReadChainAppends | nc_connection.cpp:169-208 | a successful read of n bytes leaves the message's contents followed by exactly those n bytes, and its length at n |
| Connection.ParseLoop | nc_connection.cpp:210-229 | the parse loop stops at the first failed parse, returning its status, or when recvNext gives NULL or the same message; it returns NC_OK exactly when every parse run succeeded |
| Connection.PiecesNone | nc_connection.cpp:255-277 | a segment queue yields no iovec exactly when it holds no bytes |
| Connection.GatherSegs | nc_connection.cpp:255-277 | the inner gather skips empty segments and adds one iovec per non-empty one; it keeps the iovecs already gathered, never passes SSIZE_MAX bytes, adds no more than the queue holds and, with the intended guard, keeps within NC_IOV_MAX entries |
| Connection.GatherSegsNothing | nc_connection.cpp:255-277 | a queue with no bytes adds nothing |
| Connection.GatherSegsSkip | nc_connection.cpp:258-262 | an empty segment is skipped |
| Connection.GatherSegsTake | nc_connection.cpp:264-276 | a non-empty segment within the limit adds one iovec of its whole length |
| Connection.GatherSegsExact | nc_connection.cpp:255-277 | below both limits the inner gather adds exactly the queue's iovecs and bytes |
| Connection.GatherSegsExactTake | nc_connection.cpp:255-277 | the same, for a queue whose first segment has bytes |
| Connection.SendableSlice | nc_connection.cpp:249-292 | any run of a sendable message list is sendable |
| Connection.GatherLoop | nc_connection.cpp:249-292 | the outer gather takes at least one more message and no more than offered, keeps the byte count within SSIZE_MAX and, with the guard, within NC_IOV_MAX iovecs |
| Connection.GatherLoopPrefix | nc_connection.cpp:249-292 | send_msgq is the front of the messages offered, in order |
| Connection.PrefixJoin | nc_connection.cpp:251 | pushing the head and then a front of the rest is a front of the whole |
| Connection.GatherOne | nc_connection.cpp:251-277 | one outer step pushes the message on send_msgq and runs the inner gather over its segments |
| Connection.GatherLoopWithin | nc_connection.cpp:249-292 | the intended gather counts no more bytes than the messages it took hold |
| Connection.GatherAsWritten | nc_connection.cpp:248-292 | the gather as written takes a front of the messages offered and stays within SSIZE_MAX bytes |
| Connection.Gather | nc_connection.cpp:249-292 | the intended gather takes a front of the messages offered, within NC_IOV_MAX iovecs and SSIZE_MAX bytes, counting no more bytes than those messages hold |
| Connection.GatherLoopExact | nc_connection.cpp:249-292 | below both limits the intended gather takes every message with all its iovecs and bytes |
| Connection.GatherLoopExactStep | nc_connection.cpp:249-292 | the same, for more than one message |
| Connection.GatherExact | nc_connection.cpp:249-292 | below both limits the intended gather sends the whole queue |
| Connection.GatherAsWrittenRepeats | nc_connection.cpp:248-292 | as written, two messages gather the first message's iovecs and bytes twice and none of the second's |
| Connection.GatherAsWrittenOverflows | nc_connection.cpp:255-282 | as written, a message of more than NC_IOV_MAX pieces fills more than NC_IOV_MAX iovecs, while the intended gather stops at the limit |
| Connection.Consume | nc_connection.cpp:324-357 | walking one message's segments with the sent count keeps every segment valid and touches only that message's; what is left is at most the count, and nothing is left unless the message was fully sent |
| Connection.ConsumeStream | nc_connection.cpp:324-357 | after the walk, the message's contents are its old contents minus the bytes sent; the rest of the count carries over, and the message is complete exactly when the count covered it |
| Connection.ConsumeStreamSkip | nc_connection.cpp:333-337 | the same, for a queue starting with an empty segment |
| Connection.ConsumeStreamPartial | nc_connection.cpp:339-345 | the same, when the count ends inside the first segment |
| Connection.ConsumeStreamWhole | nc_connection.cpp:347-349 | the same, when the count covers the first segment |
| Connection.ConsumeWholeTail | nc_connection.cpp:347-349 | a covered first segment leaves the rest of the count for the remaining segments |
| Connection.ConsumeWholeUnfold | nc_connection.cpp:347-349 | covering a segment marks it complete and walks on with the count reduced by its length |
| Connection.ConsumeCounts | nc_connection.cpp:324-357 | the count left is the sent count minus the message's bytes, and the message is complete exactly when the count covered it |
| Connection.SkipCovered | nc_connection.cpp:347-349 | bytes already covered drop out of the stream |
| Connection.FlatFrame | nc_connection.cpp:309-358 | the bytes of a message list depend only on its own segments |
| Connection.SendableKept | nc_connection.cpp:309-358 | a list stays sendable while every segment stays valid |
| Connection.KeepsValidWithin | nc_connection.cpp:324-357 | changing only some segments, validly, keeps every segment valid |
| Connection.Settle | nc_connection.cpp:315-357 | with nothing sent a message is done exactly when its length is 0 and no segment changes; otherwise the segments are walked with the sent count |
| Connection.Account | nc_connection.cpp:306-358 | accounting keeps every segment valid, touches only the segments of the messages sent, changes nothing when nothing was sent, and calls sendDone on at most the messages gathered |
| Connection.ExpectedFrame | nc_connection.cpp:309-358 | which messages are done depends only on their own segments |
| Connection.SettleSplit | nc_connection.cpp:309-358 | settling the first message leaves the rest sendable and untouched |
| Connection.AccountDone | nc_connection.cpp:309-358 | sendDone is called on exactly the messages the sent count completes, in order |
| Connection.AccountStream | nc_connection.cpp:306-358 | after accounting, the messages' bytes are their old bytes minus the first n sent |
| Connection.AccountStreamStep | nc_connection.cpp:306-358 | the same, for a positive count and a non-empty list |
| Connection.SliceJoin | nc_connection.cpp:306-358 | dropping n bytes from two joined parts drops them from the first and then the rest from the second |
| Connection.AccountStreamParts | nc_connection.cpp:309-358 | with a positive count the first message loses its share of the bytes sent and the rest lose the remainder |
| Connection.AllSegsSplit | nc_connection.cpp:309-358 | the segments of a list split with the list |
| Connection.SendStatusAsWritten | nc_connection.cpp:360-365 | as written the chain returns NC_OK for a positive count or EAGAIN, and NC_ERROR otherwise, including a count of 0 |
| Connection.SendStatus | nc_connection.cpp:360-365 | the intended status is NC_OK also when nothing was sent, and NC_ERROR only for a failed write |
| Connection.SendStatusDiffers | nc_connection.cpp:360-365 | the two statuses differ on a count of 0 and only there |
| Connection.SendChainAsWritten | nc_connection.cpp:232-366 | sendChain as written clears the message in flight, changes only this connection and the segments, keeps them valid, sends no more than it gathered, fails on a count of 0, and changes no segment unless bytes were sent |
| Connection.SendChainEmptyDiffers | nc_connection.cpp:295-365 | a message with no bytes sends nothing and changes no segment; as written the chain then reports NC_ERROR, while the intended chain reports NC_OK |
| Connection.SendChain | nc_connection.cpp:232-366 | the intended sendChain has the same frame, sends no more than the intended gather holds, and succeeds on any non-negative count or EAGAIN |
| Connection.SendChainAccounts | nc_connection.cpp:232-366 | after the intended sendChain the gathered messages have lost exactly the bytes written, and sendDone was called on exactly the messages those bytes completed |
| Core.CalcConnections | nc_core.cpp:52-71 | a failed getrlimit gives NC_ERROR and changes no limit; otherwise only max_nfd and max_ncconn change, both fit in 32 bits, max_nfd is the soft limit truncated to 32 bits, and max_ncconn plus max_nsconn plus the reserved descriptors equals max_nfd modulo 2^32 (exactly, when the limit is large enough) |
| Core.CalcConnectionsWraps | nc_core.cpp:64-65 | a soft limit of 16, below the reserved descriptors, wraps max_ncconn to 4294967280 |
| Core.CreateContext | nc_core.cpp:73-119 | createContext always draws a fresh id; it returns a context exactly when the limits, the server connections and the proxy connection all succeed, with both timeouts at the stats interval, no server connections counted and the descriptor limits computed from the soft limit |
| Core.SweepEntries | nc_core.cpp:135-170 | the sweep over the timeout index in key order takes out a front of the entries and stops at the first message that is neither done, failed nor due; it expires at most one connection per entry taken out |
| Core.SweepTakesGoneRun | nc_core.cpp:135-170 | the entries taken out are exactly the leading run of done, failed or due messages, and the connections expired are those of the live messages among them, in order |
| Core.NotGoneStops | nc_core.cpp:147-163 | a sweep whose first message is live and not due takes nothing out |
| Core.GoneStepCombine | nc_core.cpp:135-170 | one dropped entry followed by the sweep of the rest is the sweep of the whole |
| Core.GoneShift | nc_core.cpp:147-170 | a leading dropped entry extends the run of dropped entries by one |
| Core.SweepStepExpired | nc_core.cpp:147-170 | the connections expired by the whole sweep are the first entry's, if it is live, then those of the rest |
| Core.SweepLeavesFuture | nc_core.cpp:135-170 | every entry the sweep leaves in a sorted index is due after now |
| Core.SortedSuffixAbove | nc_core.cpp:157-163 | in a sorted index, every entry from the first one after now is after now |
| Core.SweepFrame | nc_core.cpp:147-156 | the sweep reads only the messages in the index |
| Core.IndexedTail | nc_core.cpp:137-153 | the rest of an index whose messages exist is such an index too |
| Core.IndexedPrefix | nc_core.cpp:137-153 | so is any front of it |
| Core.UntimedMin | nc_core.cpp:137-167 | removing the minimum of a well-formed timeout index drops exactly the first entry in key order, keeps the index well formed and changes no other indexed message |
| Core.MinTreeRemoved | nc_rbtree.h:274-378 | the minimum node has no left child, so even the as-written removal takes it out cleanly and leaves the rest of the entries in order |
| Core.FrontRemoved | nc_core.cpp:137-149 | removing the first entry of a list of distinct ids leaves exactly the rest |
| Core.SweepTree | nc_core.cpp:135-170 | the sweep on the tree keeps the timeout index well formed and changes only the tree and the swept messages' rbnode fields |
| Core.SweepTreeMatches | nc_core.cpp:135-170 | the sweep on the tree leaves exactly the entries and expires exactly the connections that the sweep over the sorted entries does |
| Core.SweepTreeStep | nc_core.cpp:147-170 | the same, when the minimum is dropped first |
| Core.Loop | nc_core.cpp:121-175 | loop returns a failed wait's count unchanged with nothing swept; otherwise it returns NC_OK with the index well formed and every entry left due after now |
| Proxy.Ref | nc_proxy.cpp:12-25 | ref makes the pool the owner, copies the pool's listen family, address length and address into the proxy, registers it as the pool's proxy, and keeps its descriptor, its queues and every other connection |
| Proxy.Unref | nc_proxy.cpp:27-36 | unref clears the owner and the pool's proxy slot, with nothing else changed |
| Proxy.RefThenUnref | nc_proxy.cpp:12-36 | unref undoes ref on a pool that had no proxy |
| Proxy.Close | nc_proxy.cpp:45-67 | close unrefs the proxy, closes an open descriptor and sets it to -1, and returns the proxy to the proxy pool; no message and no other connection or pool changes |
| Proxy.Reuse | nc_proxy.cpp:107-133 | reuse reports the reuse-address call's status for INET and INET6, NC_OK for a unix socket, and NC_ERROR for any other family |
| Proxy.WfClosable | nc_proxy.cpp:289-339 | a well-formed world can close any client |
| Proxy.Adopt | nc_proxy.cpp:302-303 | the accepted client takes the descriptor and is reffed into the pool: owner set, 32-bit count bumped, queued on the pool, nothing else changed |
| Proxy.Accept | nc_proxy.cpp:226-344 | accept gives an answer exactly when accept(2) eventually returns something other than EINTR |
| Proxy.Take | nc_proxy.cpp:289-344 | when the client pool has nothing to give, accept returns NC_ENOMEM, drops the descriptor and changes no connection |
| Proxy.Admit | nc_proxy.cpp:304-343 | the accepted client's setup returns NC_OK or the failing status of the non-blocking switch or of the event registration |
| Proxy.SkipEintr | nc_proxy.cpp:237-244 | EINTR outcomes in front are skipped |
| Proxy.AcceptRetriesEintr | nc_proxy.cpp:237-244 | accept retries EINTR with no other effect |
| Proxy.TakeIgnoresOuts | nc_proxy.cpp:289-344 | what happens after accept(2) succeeds does not depend on its earlier outcomes |
| Proxy.AcceptFailure | nc_proxy.cpp:238-270 | EAGAIN, EWOULDBLOCK, ECONNABORTED, EMFILE and ENFILE clear the ready flag and return NC_OK; any other error returns NC_ERROR and changes nothing |
| Proxy.AcceptAtLimit | nc_proxy.cpp:276-287 | at the client limit the descriptor is dropped and NC_OK returned, with no connection created |
| Proxy.AcceptWithoutConn | nc_proxy.cpp:289-300 | with the pool exhausted the descriptor is dropped and NC_ENOMEM returned, with no connection changed |
| Proxy.AcceptAdmits | nc_proxy.cpp:276-343 | below the limit, with a connection to take and every setup call succeeding, accept returns NC_OK with the client holding the descriptor, owned by the pool, registered for both directions and queued at the back of the pool |
| Proxy.TakeAdmits | nc_proxy.cpp:289-343 | the same, from the allocation on |
| Proxy.AcceptUndone | nc_proxy.cpp:304-311 | when the non-blocking switch fails the new client is closed again and back in the client pool, and its status is returned |
| Proxy.ClosableFrame | nc_proxy.cpp:289-339 | a world whose messages only lost links and whose connections kept their queues or are fresh stays closable |
| Proxy.CloseKeepsClosable | nc_proxy.cpp:304-339 | closing a failed client keeps the world closable, changes no other connection and returns it to the pool |
| Proxy.AdmitKeeps | nc_proxy.cpp:304-343 | the setup keeps the world closable and changes no other connection; the client is back in the pool only if setup failed |
| Proxy.AcceptKeeps | nc_proxy.cpp:226-344 | one accept keeps the loop's invariant, adds at most the new connection, and leaves the proxy untouched while it stays ready |
| Proxy.TakeKeeps | nc_proxy.cpp:289-344 | taking a connection keeps the loop's invariant and leaves the proxy untouched |
| Proxy.AllocKeepsLoop | nc_proxy.cpp:289 | allocating from the client pool keeps the loop's invariant and never hands out the proxy |
| Proxy.AdoptAdmitKeeps | nc_proxy.cpp:302-343 | adopting and setting up a client keeps the loop's invariant and leaves the proxy untouched |
| Proxy.AcceptLoop | nc_proxy.cpp:73-81 | the accept loop keeps its invariant and, when it ends with NC_OK, the proxy is no longer ready |
| Proxy.RecvMsg | nc_proxy.cpp:69-86 | recvMsg sets the ready flag and accepts until it clears or an accept fails; NC_OK only once the listening socket reported itself not ready |
| Proxy.RecvMsgStopsAtFailure | nc_proxy.cpp:76-80 | recvMsg returns the first failing accept's status and world |
| Proxy.LimitKeepsAccepting | nc_proxy.cpp:276-287 | a connection refused at the limit leaves the proxy ready, so the loop goes on with the next accept |
| Queue.Push | tests/nc_queue_test.cpp:17-25 | push appends the element at the back and keeps the rest |
| Queue.Front | nc_server.cpp:25 | front is NULL exactly on an empty queue and otherwise the first element |
| Queue.IndexOf | nc_client.cpp:35 | the position of the first occurrence, or the length when absent |
| Queue.Remove | nc_client.cpp:35 | remove deletes the first occurrence of the element, one element fewer, and leaves a queue without it unchanged |
| Queue.RemoveUndoesPush | nc_client.cpp:17-35 | removing an element just pushed onto a queue without it gives the queue back |
| Queue.RemoveMultiset | nc_client.cpp:35 | remove takes exactly one copy of the element out of the queue's contents |
| Queue.RemoveKeepsOrder | nc_client.cpp:35 | the remaining elements keep their relative order |

## Left out

- RbTree.RemoveAsWritten: the context's tree is built with a NULL sentinel (nc_core.h:179, nc_rbtree.h:56-57), so removing a node whose replacement child is the sentinel reads the colour of NULL or writes its parent (nc_rbtree.h:310, 330-342); the model's `Leaf` is a black sentinel instead, so that crash is not modelled.
- RbTree.RemoveAsWritten: the delete fix-up loop (nc_rbtree.h:379-456) only rotates and recolours; the model keeps the order (shown by `RbTree.RotationsKeepInOrder`) but not the colours, so red-black balance after a removal is not modelled.
- RbTree.RemoveAsWritten: the tree has no parent links. When the root is the minimum, the source resets the removed node where it stands (nc_rbtree.h:306-312, reset at 29-37), so the node stays linked under its old parent; a later removal of that node returns early at nc_rbtree.h:315 and leaves the tree unchanged, while the model splices it out, and a sweep's `min()` on such a tree keeps returning it. Store.Untimed, Core.MinTreeRemoved and Core.SweepTree inherit this.
- RbTree.Insert: no code in the source inserts into the context's timeout index, so the index the sweep and `freeMsg` see is always empty there; the model states its properties for any index.
- Core.SweepTree: the source reads the clock once per live entry (nc_core.cpp:156); the model reads one `now` for the whole sweep.
- Core.SweepTree: the source sets ETIMEDOUT and closes the connection inside the loop (nc_core.cpp:167-169), and that close can free other indexed messages before the next `min()`; the model returns the expired connections in order instead, so a connection with two expired requests is listed twice.
- Core.Loop: the wait timeout bookkeeping is commented out in the source (nc_core.cpp:142-143, 160-161) and is not modelled; the wait itself is its result count.
- Message.ForwardTarget: requires at least one server, because the source computes the server index modulo the server count (nc_server.cpp:139), a division by zero with no servers; the same requirement carries to Message.RequestForward, Message.ForwardTargetKeeps, Message.ForwardClientQueue and Client.RecvDone when a request is forwarded.
- Pools.PickServer: requires at least one server for the same reason: the index is taken modulo the server count (nc_server.cpp:139), and with no servers that is a division by zero.
- Mbuf.SetPos: requires `n` within the content; the source does not check (nc_mbuf.h:87-90) and moves the cursor past `last`.
- Mbuf.SetLast: requires `n` within the free room; the source does not check (nc_mbuf.h:92-96).
- Mbuf.Copy: requires `n` within the free room; the source's memcpy is unchecked (nc_mbuf.h:123-132) and would overrun the segment.
- Mbuf.Split: requires the split position between the cursors and the tail to fit a fresh segment; the source does not check (nc_mbuf.h:168-185).
- Message.PosInBack: the split functions require the parse position to lie in the last segment, between its cursors; the source splits the last segment at whatever pointer the parser left (nc_message.cpp:119-174, 176-190), which is undefined otherwise.
- Util.Atoi: signed overflow of the accumulator is undefined behaviour in C++ (nc_util.cpp:12-27); the model wraps it as a 32-bit two's-complement int.
- Conf.Step: a scalar containing a NUL byte stops with NC_ERROR. The source rejects only a zero-length scalar (nc_conf.cpp:417-421) and builds an `NcString` of the full length; the model's strings carry no embedded NUL, so such a scalar is not modelled.
- Conf.ParseCore: libyaml is not modelled; parseCore consumes an abstract list of events.
- `NcMsg::prependFormat` formats with vsnprintf, which is not modelled.
- `NcServerConn::close` is an empty placeholder in the source (nc_server.cpp:258-265); the model's server close changes nothing, as written.
- The response path (`responseFilter`, `responseForward`) is not part of this model. No protocol parser stands behind `NcMsg::parse`: it fixes the result to kMSG_PARSE_OK (nc_message.cpp:91-92). Message.Parse takes the result as an input, so its REPAIR, AGAIN and error branches are modelled although they are unreachable as written.
- Client.LocalReply: `NcMsg::reply` is declared (nc_message.h:125) and called (nc_client.cpp:212) but defined nowhere in the source, so its status and the errno it leaves are inputs (`DoneEnv.replyStatus`, `DoneEnv.replyErrno`) with no constraint.
- The proxy's `recvNext`, `sendNext`, `recvDone` and `sendDone` (nc_proxy.h:21-35) return NULL or do nothing; the proxy never runs the message loops (its `recvMsg` is the accept loop and its `sendMsg` returns NC_OK), so these hooks are not modelled separately.
- `NcProxyConn::listen` (nc_proxy.cpp:135-224) is a sequence of system calls; only its `reuse` family switch is modelled.
- The `NcServer` getters and setters (nc_server.h:91-109) are plain field reads and writes; the model reads and writes the record fields directly.
- `NcQueue` (nc_queue.h) is not part of this model; `Queue` models its `push`, `front` and `remove` as the source uses them.
- Hashkit.RandomUpdate / Hashkit.ModulaUpdate: the continuum is an unbounded sequence. `nserver_continuum` is read before it is ever set, the "re-allocation" is a placement new into the existing `continuum` pointer that the pool's constructor never allocates (nc_hashkit.cpp:56, 156; nc_server.h:132-136), and modula_update tests `total_weight` but records `nlive + RANDOM_CONTINUUM_ADDITION` (nc_hashkit.cpp:150-159), so a fill can run past the memory; none of this is modelled.
- ObjectPool.Alloc: the free counter `m_free_` is not decremented when a freed object is handed out again (nc_core.h:109-125, 135); the model keeps that, as written.
- Hashing functions, name resolution, `getrlimit`, `accept`, `connect`, `socket`, `close`, `kevent`, `epoll_wait`, the clock and random numbers are inputs.
- Logging output, signal handling, Lua scripting and daemonisation are not modelled.

## Findings

| source | as written | input that shows it | evidently intended | confidence | as-written member | corrected member |
|---|---|---|---|---|---|---|
| nc_rbtree.h:296-300 | removing a node with two children substitutes `min()` of the whole tree | in a tree built with a sentinel, the sample tree of keys 1, 2, 3, 4, 5 (ids 10 to 50), removing key 4: the in-order keys become 2, 3, 1, 5 (on the context's NULL-sentinel tree the same removal writes through NULL at nc_rbtree.h:342 first) | substitute the minimum of the node's right subtree, keeping the search order | high, not executed | RbTree.RemoveAsWritten, RbTree.RemoveAsWrittenBreaksOrder | RbTree.Remove, RbTree.RemoveKeepsSampleOrder, RbTree.RemoveKeepsOrder |
| nc_message.cpp:8-16 | ensureMbuf looks at the front segment and allocates when it has room, then pushes the segment even if it is that front one | a message whose only segment `b` is full: the queue becomes `[b, b]` and the append overruns `b` | allocate when the back segment lacks room, and push only a new segment | high, not executed | Message.EnsureMbufAsWritten, Message.EnsureMbufAsWrittenDuplicates | Message.EnsureMbuf, Message.EnsureMbufKeepsDistinct, Message.AppendAddsContent |
| nc_connection.cpp:248 | `mbuf_queue` is bound once to the first message, so each later message re-gathers the first message's segments | two messages `[a, b]` below the limits: the iovecs are a's twice and the byte count is twice a's | gather each message's own segments | high, not executed | Connection.GatherAsWritten, Connection.GatherAsWrittenRepeats | Connection.Gather, Connection.GatherExact |
| nc_connection.cpp:255-282 | `iov_n` is checked only after a message's segments are all gathered | one message with more than NC_IOV_MAX (128) non-empty segments: more than 128 iovecs are written | stop gathering at NC_IOV_MAX iovecs | high, not executed | Connection.GatherAsWritten, Connection.GatherAsWrittenOverflows | Connection.Gather, Connection.GatherAsWrittenOverflows |
| nc_connection.cpp:295-302, 360-365 | a chain with nothing to send sets `n = 0` and returns NC_ERROR | a message whose segments are all empty: as written the chain reports NC_ERROR, which closes the connection | nothing to send is NC_OK | medium, not executed | Connection.SendStatusAsWritten, Connection.SendStatusDiffers, Connection.SendChainAsWritten, Connection.SendChainEmptyDiffers | Connection.SendStatus, Connection.SendChain, Connection.SendChainAccounts |
| event/nc_event.h:192-199 | sendv clears `send_ready` only when the bytes written are fewer than the iovec count | 2 iovecs totalling 100 bytes, of which 50 are written: `send_ready` stays set | compare the bytes written with the bytes asked for | high, not executed | Event.SendvAsWritten, Event.SendvPartialWriteKeepsReady | Event.Sendv, Event.SendvPartialWriteKeepsReady |
| nc_conf.cpp:111-116 | a unix-socket server with no permission field takes the whole value, weight included, as its path | "/tmp/sock 1": the path is "/tmp/sock 1" | the path stops before the weight | high, not executed | Conf.ServerParseAsWritten, Conf.Handler, Conf.ServerUnixNoPerm | Conf.ServerParse, Conf.HandlerIntended, Conf.ServerUnixNoPerm |
| event/nc_kqueue.cpp:175-184, 252-280 | delConn neutralises a pending event by zeroing its filter, but wait still calls the callback, with an empty mask | a batch of a read and a write event for one descriptor, where the read callback deletes it: the write entry's callback runs with mask 0 on a closed connection | skip a neutralised event | medium, not executed | Kqueue.DispatchAsWritten, Kqueue.Wait, Kqueue.CallbackAfterDelConn, Kqueue.WaitCallbackAfterDelConn | Kqueue.Dispatch, Kqueue.WaitGuarded, Kqueue.WaitCallbackAfterDelConn |
