# simple-kv: a verified model

simple-kv is an in-memory key-value server. It keeps its data in a Robin Hood hash table of its
own, speaks a subset of the Redis serialization protocol (RESP2: arrays, bulk strings, null bulk
strings, integers, simple errors, and the simple string `OK`), gives keys deadlines, and appends
every write command to a log that is replayed when it starts.

The model follows these four parts and stacks them: a client's bytes become requests, requests
become commands, commands change a finite map, the hash table implements that map, and the log
holds the bytes of the writes.

| file | part |
|---|---|
| `Prelude`, `Bits` | words and bytes; masking by a capacity, the wrapping probe sum, the single-precision load test |
| `RobinHood`, `KeyStore`, `CanonicalLayout` | the table as a value and its invariant; the class that changes it in place; the layout as a function of the key set |
| `Wire`, `Unicode`, `Framing` | lines, decimal numbers, UTF-8; cutting a stream into messages with a parser that may wait |
| `Request`, `RequestReader`, `RequestGrammar` | parser and printer of requests; the incremental decoder; the grammar they agree with |
| `Response`, `ResponseReader`, `ResponseGrammar` | the same for response trees |
| `Command`, `Store`, `Apply` | requests as commands; what commands mean on a map; how they run on the table |
| `Restore` | replay, and runs of requests, cleanups and restarts under a clock |
| `Server`, `Connection`, `Clients` | log and table together; one client connection; several clients that take turns |
| `Spelled`, `ClientView` | the protocol in plain bytes; what a client is told, spelled out and over runs |
| `ErrorTexts`, `ReplyStream` | the texts of errors; what a client reads back |

How the parts are read:

- The hash is an arbitrary total function from keys to 64-bit words, so every result holds for
  every hasher, a constant one included, and each restart may have another.
- The clock is a parameter that never decreases; a command, a cleanup or a replay reads it once.
- The steps of the server are atomic, because each holds the lock (src/server.rs:154-157, 189-195).
- An append to the log either happens entirely or reports an error and changes nothing. Runs may
  hold both kinds.
- `RobinHood.Psl` is -1 for an empty slot. In these terms the whole order of a Robin Hood table
  is one inequality: from a slot to the next, the psl grows by at most one.
- Parsers return `Waiting`, `Broken` or `Complete`. A parser is `Local` when its verdicts do not
  change as more bytes arrive; everything about chunks follows from that.

Results that differ from what one might expect of the server:

- A restart does not restore the lost store in general. `Restore.RestoreLosesKey` is a run that
  loses a live key, `Restore.RestoreExact` says exactly when none is lost, and
  `Restore.RestoreSound` says that a restart never brings anything back.
- TTL reports a deadline of 2^63 or more as a negative number; the two largest ones read as "no
  deadline" and "no such key" (`Store.TtlReport`, and two runs in `Restore.TtlMisreports`).
- A client does not always read the responses it was sent. An error text that contains CRLF is cut
  short by its reader (`Response.ErrorTextIsCut`), and two errors quote what the client sent: an
  unrecognized command name (`ReplyStream.EchoedNameIsCut`) and an expiration that is no number
  (`ReplyStream.EchoedExpirationIsCut`). `ReplyStream.ClientReadsConnection` says exactly when a
  client reads back all responses of its connection.
- A `Del`, `MGet` or `MSet` with an empty list prints but does not parse back
  (`Command.PartsRoundTrip`).
- The table does not always grow at three quarters of its capacity. Rounding to single precision
  brings the growth forward by a share of 2^-23 (`Bits.LoadTest`), which matters exactly from a
  capacity of 2^25 on (`Bits.ThreeQuarters`); a table of that capacity grows at 25,165,823 entries,
  one too early (`Bits.FirstEarlyGrowth`).

## Model

| member | source | states |
|---|---|---|
| Bits.MaskIsRemainder | src/key_store.rs:85-87 | for a power-of-two capacity, masking by capacity - 1 is reduction modulo the capacity |
| Bits.LoadTest | src/key_store.rs:52-54 | at every length and capacity, the single-precision load test holds exactly from three quarters of the capacity less 2^-23 of it, rounded down |
| Bits.ThreeQuarters | src/key_store.rs:52-54 | the load test is the exact test for three quarters, at every length, if and only if the capacity is below 2^25 |
| Bits.FirstEarlyGrowth | src/key_store.rs:52-54 | a length and capacity at which the test holds and the table is not three quarters full |
| Bits.NearestEven | src/key_store.rs:52-54 | a long length is rounded to the nearest number of 24 significant bits, of two equally near ones to the even one |
| KeyStore.ProbeIndex | src/key_store.rs:85-87 | the masked probe sum walks round the table from the home bucket; adding modulo 2^64 first selects the same bucket |
| RobinHood.Trail | src/key_store.rs:103-106 | behind an entry that probed d slots, the o-th slot back is occupied and has psl at least d - o |
| RobinHood.ProbesAreShort | src/key_store.rs:158-176 | with an empty slot in the table no probe distance reaches the capacity, which bounds every probe loop |
| RobinHood.EarlyStop | src/key_store.rs:96-106 | after missing so far, an empty slot or an entry with smaller psl means the key is in no slot of the table |
| RobinHood.StoredIsFound | src/key_store.rs:158-176 | the probe for a stored key meets no empty slot and no smaller psl before it reaches the key |
| RobinHood.Settle | src/key_store.rs:198-206 | swapping the entry in flight with a richer one, or placing it in an empty slot, keeps the whole invariant; table plus entry in flight denote the same map, and the displaced key is nowhere in the table |
| RobinHood.ShiftStep | src/key_store.rs:115-124 | one backward shift keeps places, uniqueness and contents, and restores the order up to the new hole |
| RobinHood.OccupiedIsSize | src/key_store.rs:190-192 | the number of occupied slots is the size of the map the table denotes |
| RobinHood.DenotesOne | src/key_store.rs:45-50 | a table denotes at most one map |
| KeyStore.PairsListMap | src/key_store.rs:45-50 | iteration lists every stored pair exactly once |
| KeyStore.KeyStore.constructor | src/key_store.rs:37-43 | a new table has 16 buckets and denotes the empty map |
| KeyStore.KeyStore.IndexOf | src/key_store.rs:151-177 | returns no slot exactly when the key is absent, and otherwise a slot that holds the key with its value |
| KeyStore.KeyStore.Get | src/key_store.rs:133-140 | the map's answer |
| KeyStore.KeyStore.GetMut | src/key_store.rs:142-149 | exactly the value under the key is updated, if it is there |
| KeyStore.KeyStore.Iter | src/key_store.rs:45-50 | the pairs in slot order, each pair of the map exactly once |
| KeyStore.KeyStore.Insert | src/key_store.rs:179-211 | the map gains the pair, the old value is returned, the invariant and the load bound hold, and the capacity doubles exactly when the load test's threshold is reached |
| KeyStore.KeyStore.InsertEntry | src/key_store.rs:66-83 | comparing no keys, adds an absent key and keeps the invariant |
| KeyStore.KeyStore.Resize | src/key_store.rs:56-64 | twice the capacity, the same map, the same length, the full invariant |
| KeyStore.KeyStore.Del | src/key_store.rs:89-131 | the map loses the key and its value is returned; exactly the maximal following run away from home moved back one slot with its psl reduced, and nothing else changed |
| KeyStore.KeyStore.Remove | src/key_store.rs:108-124 | the backward shift: no tombstone is left and the invariant holds again |
| KeyStore.RunOps | src/key_store.rs:89-211 | for every hash function and every sequence of operations, the answers are those of the finite map, the length is its size, and the capacity is the one that the largest size so far calls for |
| KeyStore.OneCapacity | src/key_store.rs:52-64 | the largest size that a table ever had determines its capacity |
| CanonicalLayout.Canonical | src/key_store.rs:66-83 | two tables of one capacity with the same multiset of home buckets have the same occupied slots and the same psl everywhere |
| CanonicalLayout.SameKeysSameHomes | src/key_store.rs:198-209 | the multiset of home buckets is determined by the key set |
| CanonicalLayout.HistoryLeavesNoTrace | src/key_store.rs:113-124 | two stores with the same hasher, the same keys and the same largest size so far have the same capacity and the same layout, whatever was inserted and deleted before |
| Wire.ParseLine | src/util.rs:32-38 | finds the first CRLF: none exactly if there is none, else the bytes before it, which contain no CRLF |
| Wire.LineRoundTrip | src/util.rs:32-38 | a line followed by CRLF and anything is read back exactly if it contains no CRLF |
| Wire.PrintNormalises | src/command.rs:230-232 | a parsed number is its decimal form with an optional plus sign and leading zeros |
| Unicode.Utf8Exact | src/request.rs:241 | the UTF-8 check accepts exactly the encodings of sequences of Unicode scalar values |
| RequestGrammar.NumberExact | src/request.rs:241 | exactly the spellings of a number below 2^64 are read, as that number |
| Framing.ManyResume | src/request.rs:161-170 | parsing a number of items may stop anywhere and go on from there |
| Request.RequestVerdictFinal | src/request.rs:143-211 | a complete or malformed request stays what it is when more bytes arrive |
| Request.RequestRoundTrip | src/request.rs:263-279 | a printed request followed by anything is read back, using exactly its bytes, if and only if it is within the two length limits |
| Request.PrintedRequestsFrame | src/request.rs:98-115 | requests printed one after the other are told apart in order if and only if all are within the limits, and every strict prefix of such a one is incomplete, not an error |
| Request.ToBytes | src/request.rs:263-279 | the growing buffer ends as the printed request |
| RequestGrammar.RequestExact | src/request.rs:143-248 | the parser takes a prefix as a request exactly when that prefix spells it: array header, then bulk strings |
| RequestGrammar.HeaderRefused | src/request.rs:221-247 | without a line there is no verdict; an empty line, a wrong first byte and a length over the limit have their own errors, for an array and for a bulk string |
| RequestGrammar.LengthRefused | src/request.rs:241 | a length is refused as no text exactly if it is not UTF-8, and as no number exactly if it spells none |
| RequestGrammar.ArrayRefused | src/request.rs:143-155 | a request that does not start with `*` is refused as no array, whatever follows its first line, and one that announces more than 2^20 strings as too long |
| RequestGrammar.StringRefused | src/request.rs:177-211 | after a header and fewer strings than announced, a line that does not start with `$` is refused as no string, a length above 2^29 as too long, and bytes without CRLF after them as unclosed |
| RequestGrammar.WaitingExact | src/request.rs:143-248 | the parser waits exactly on what neither spells a request nor has a fault |
| RequestGrammar.StreamExact | src/request.rs:98-115 | the requests of a whole stream and the way it ends are those it spells, and it spells them in one way only |
| RequestGrammar.RefusalExact | src/request.rs:143-248 | the parser refuses a buffer with an error exactly when the buffer is spelled correctly (a header, some bulk strings) up to a part with that fault |
| RequestGrammar.CstrRefused | src/request.rs:194-205 | a bulk string waits for its bytes and is refused exactly when no CRLF follows them |
| RequestReader.ResumedVerdict | src/request.rs:161-174 | the arguments and the cursor kept between chunks determine the outcome of parsing the buffer from scratch |
| RequestReader.RequestDecoder.DecodeNext | src/request.rs:131-141 | answers as parsing the whole buffer would, keeps the rest of the buffer, and refuses further use after an error |
| RequestReader.RequestDecoder.DecodeBuffered | src/request.rs:143-175 | the same for the loop that collects arguments |
| RequestReader.RequestDecoder.ParseCstrHere | src/request.rs:177-211 | the bulk string at the cursor, moving the cursor only past a complete one |
| RequestReader.RequestReader.ReadNext | src/request.rs:98-115 | the first request of the remaining stream, or its end or error, independent of how it is cut |
| RequestReader.ReadAll | src/request.rs:98-115 | for every cutting into non-empty chunks, the requests and the end are those of parsing the whole stream at once |
| Response.ResponseLocal | src/response.rs:228-345 | a verdict on a response, nested arrays included, stays when more bytes arrive |
| Response.ResponseRoundTrip | src/response.rs:87-111 | for trees of any depth and width, a printed response followed by anything is read back, using exactly its bytes, if and only if no error text in it contains CRLF and all lengths are in range |
| Response.PrintedResponsesFrame | src/response.rs:174-191 | printed responses are read back as they are if and only if all can be sent; every strict prefix of such a one is incomplete, not an error |
| Response.ErrorTextIsCut | src/response.rs:258-269 | an error text with a CRLF inside is read back only up to it |
| ResponseGrammar.ResponseExact | src/response.rs:228-345 | the parser takes a prefix as a response exactly when that prefix spells it |
| ResponseGrammar.RefusalExact | src/response.rs:228-345 | the parser refuses a buffer with an error exactly when the buffer is spelled correctly, at any depth of nesting, up to a part with that fault |
| ResponseGrammar.ResponseRefused | src/response.rs:233-301 | each fault of a first line has its own error; an unknown prefix is refused before the line is complete |
| ResponseReader.ToBytes | src/response.rs:87-111 | the growing buffer ends as the printed response |
| ResponseReader.ParseElements | src/response.rs:330-344 | the loop over array elements gives what the recursive parser gives |
| ResponseReader.Parse | src/response.rs:228-241 | the dispatch by prefix byte gives what the recursive parser gives |
| ResponseReader.ResponseDecoder.DecodeNext | src/response.rs:207-226 | answers as parsing the buffer would, keeps the rest of the buffer, and refuses further use after an error |
| ResponseReader.ResponseReader.ReadNext | src/response.rs:174-191 | the first response of the remaining stream, or its end or error, independent of how it is cut |
| ResponseReader.ReadAll | src/response.rs:174-191 | for every cutting into non-empty chunks, the responses and the end are those of parsing the whole stream at once |
| Command.WriteOps | src/command.rs:135-137 | the split of reads and writes by name is the split by constructor that the two `apply` functions rely on |
| Command.AcceptedExactly | src/command.rs:453-477 | a request stands for a command exactly when it is the request the command is written as; EXPIRE and EXPIREAT set the deadline they spell, EXPIRE saturating at 2^64 - 1 |
| Command.RefusedExactly | src/command.rs:139-235 | a request is refused exactly when a table of arities objects, with the error the table names, at any time |
| Command.ParseMSet | src/command.rs:172-187 | the pairing loop gives the entries in order, or the error of a short or odd list |
| Command.ToBytes | src/command.rs:370-404 | the loops over parts and buffer end as the printed request of the command |
| Command.PartsRoundTrip | src/command.rs:370-394 | a command's own request is taken for it at any time, exactly when none of its lists is empty |
| Command.CommandRoundTrip | src/command.rs:370-404 | a command is read back from its bytes, whatever follows and whenever, exactly when it is well formed |
| Command.WireClosure | src/command.rs:216-251 | every accepted request gives a well-formed command, EXPIRE included, so it can be logged and read back unchanged |
| Spelled.NumbersSpelled | src/request.rs:241 | a number is read exactly from an optional `+`, any number of zeros and its digits |
| Spelled.LimitsSpelled | src/request.rs:14 | a request that can be sent has at most 2^20 strings of at most 2^29 bytes |
| Spelled.CommandSpelled | src/command.rs:370-404 | the bytes of every command: its name and arguments as an array of bulk strings |
| Spelled.RequestsSpelled | src/command.rs:139-216 | the request that stands for each command, with its key and value in place |
| Spelled.MSetSpelled | src/command.rs:172-187 | MSET pairs the arguments at even places with those after them |
| Spelled.DeadlinesSpelled | src/command.rs:237-251 | EXPIREAT sets the deadline it names, EXPIRE one so many seconds after now, at most 2^64 - 1 |
| Spelled.RefusalsSpelled | src/command.rs:139-235 | for each name, which numbers of arguments are refused, and the error with its number |
| Spelled.TextRefusalsSpelled | src/command.rs:221-235 | an expiration that is no UTF-8 or no number, and a name that is no command's, and their errors |
| Spelled.ResponseSpelled | src/response.rs:75-111 | the bytes of every response |
| Store.PutAllMeaning | src/command.rs:345-353 | MSET: the last value listed for a key wins, its deadline is cleared, other keys are untouched |
| Store.StepView | src/command.rs:322-368 | what a key shows after a command depends only on what it showed before: written, deleted, given a deadline if it was live, or unchanged |
| Store.ReplyFromLive | src/command.rs:280-368 | no reply depends on expired entries |
| Store.TtlReport | src/command.rs:311-320 | TTL reports a deadline as it is exactly below 2^63; above, the report is negative, and -1 and -2 for the two largest |
| ClientView.Visible | src/command.rs:54-57 | a value is visible until the clock reaches its deadline |
| ClientView.SetAndExpireAt | src/command.rs:336-368 | the store after SET and after EXPIREAT: value without deadline; live key with the deadline, expired key gone |
| ClientView.MSetAndDel | src/command.rs:322-353 | the store after DEL and MSET, key by key |
| ClientView.CleanupAndFailedAppend | src/server.rs:52-79 | a cleanup leaves exactly what is not over; a write whose append fails changes nothing and is answered with the disk's error; any other write is logged and applied |
| ClientView.RestartShows | src/server.rs:38-59 | a restart keeps the log and shows exactly the keys whose last write is not deleted and whose later deadlines are all ahead |
| ClientView.GetAnswer | src/command.rs:280-286 | GET answers the bytes of a live key, and null exactly if there is none |
| ClientView.MGetAnswer | src/command.rs:288-294 | MGET answers in each position what GET answers for the key there |
| ClientView.TtlAnswer | src/command.rs:311-320 | TTL answers -2 exactly without a live key or at deadline 2^64 - 2, -1 exactly without a deadline or at 2^64 - 1, and the deadline as a signed word otherwise |
| ClientView.GetAllAnswer | src/command.rs:296-309 | GETALL answers as many pairs as there are live keys: key and bytes of each of them once, and no other pair |
| ClientView.SetAndExpireAnswer | src/command.rs:336-368 | SET and MSET answer `OK`; EXPIREAT answers 1 for a live key and 0 otherwise |
| ClientView.DelAnswer | src/command.rs:322-334 | DEL answers by how many live keys the store has fewer than before |
| ClientView.GetAfterRun | src/command.rs:280-286 | after any run, GET answers exactly the bytes the store shows, which the last write of the key put there, and null exactly if the key is not live |
| ClientView.MGetAfterRun | src/command.rs:288-294 | the same for each position of MGET |
| Restore.TtlReports | src/command.rs:311-320 | runs whose TTL answers -2, -1 and an ordinary deadline |
| Restore.TtlMisreports | src/command.rs:311-320 | the runs SET, EXPIREAT, TTL whose last reply is -1 or -2 for a live key with a deadline |
| Apply.EjectIfExpired | src/command.rs:88-92 | exactly an expired entry under the key is removed |
| Apply.ApplyDel | src/command.rs:322-334 | exactly the listed keys are removed, and the reply counts the distinct live ones |
| Apply.ApplySet | src/command.rs:336-343 | the key has the value and no deadline |
| Apply.ApplyMSet | src/command.rs:345-353 | the loop is the left-to-right fold of its entries |
| Apply.ApplyExpireAt | src/command.rs:355-368 | a live key gets the deadline and the reply 1; an expired one is removed, and the reply is 0 |
| Apply.ApplyWrite | src/command.rs:265-278 | a write command on the table is the write command on the map, with the map's reply |
| Apply.ApplyGet | src/command.rs:280-286 | the bytes of a live key, else null |
| Apply.ApplyMGet | src/command.rs:288-294 | the replies to GET of each key, in order |
| Apply.ApplyGetAll | src/command.rs:296-309 | each live pair is listed exactly once |
| Apply.ApplyTtl | src/command.rs:311-320 | -2 for no live key, -1 for no deadline, else the deadline as a signed word |
| Apply.ApplyRead | src/command.rs:253-263 | a read command on the table gives the map's reply |
| Apply.RenderedOnce | src/command.rs:296-309 | filtering and rendering an iteration that lists every pair once lists every live pair once |
| Restore.RestoreMeaning | src/server.rs:38-50 | a key is live after a replay at t exactly if its last write is not followed by a deletion and every later deadline is after t; bytes and deadline are the last ones named |
| Restore.StepKeepsAgreement | src/server.rs:52-79 | every step of the server keeps, for all later times: what a replay shows is what the store shows |
| Restore.RestoreSound | src/server.rs:38-59 | over any run with failed appends, cleanups and restarts, a key live after a replay was live in the lost store with the same bytes and deadline |
| Restore.RestoreExact | src/server.rs:44-47 | a replay at t restores the live store exactly when no live key had a deadline set since its last write that is over at t |
| Restore.RestoreLosesKey | src/command.rs:355-368 | the run SET, EXPIREAT 10, EXPIREAT 20 loses its live key to a restart at 15 |
| Restore.CleanupInvisible | src/server.rs:65-79 | with all cleanups removed from a run, the replies, the log and the live keys are the same |
| Server.LogFidelity | src/server.rs:44-59 | the bytes of the log decode at any time, without error, to exactly the appended commands in order, with no read among them |
| Server.AppendedFile | src/server.rs:38-59 | a log file found at the start, in any spelling, with commands appended to it reads back as the commands of the file, then these |
| Server.StartsAnyTime | src/server.rs:38-50 | a file that can be restored once can be restored at any other time |
| Server.RestoreStep | src/server.rs:44-47 | what each request, error or end met in a log file says about restoring it |
| Server.RestoreKeystore | src/server.rs:38-50 | gives the table of the replay, or the first error in the file: a request that stands for no command, or malformed or truncated bytes |
| Server.ServerState.FromWal | src/server.rs:30-36 | a server starts over any file that does not make the program panic, and over such a file with its own commands appended, with the store of the replay |
| Server.ServerState.Write | src/server.rs:52-59 | appends the command's bytes and applies it, or reports the disk error and changes nothing; the log stays the bytes of the applied writes |
| Server.ServerState.Read | src/server.rs:61-63 | the reply of the map |
| Server.ServerState.RemoveExpired | src/server.rs:65-79 | exactly the expired keys are removed and counted |
| Server.ServerState.Handle | src/server.rs:186-202 | a decoded request is refused without effect, answered with the disk's error without effect, or applied as its command |
| Server.RunServer | src/server.rs:149-204 | over any run of requests, failed appends, cleanups and restarts the server answers as the state machine does, each restart with a hasher of its own, and its log holds the bytes of the writes |
| Connection.ServeConnection | src/server.rs:164-204 | however a client's bytes are cut, each request in them is answered in order by the server as the requests before it left it, with a report if the stream does not end cleanly |
| Connection.AnswerSpelled | src/server.rs:186-203 | a refused request gets its error's text, a write that cannot be appended the disk's error, and neither changes anything; any other gets the reply of its command |
| Connection.ConnectionEnds | src/server.rs:173-184 | a connection ends without a word if its stream does between requests, else with exactly one error that names the fault |
| Clients.Session.Step | src/server.rs:172-202 | one round of a connection's loop: the next request of its stream is answered, or the connection ends |
| Clients.ServeClients | src/server.rs:108-122 | several connections and the cleanup take turns in any order: every client is sent the answers to its own requests, in order, each by the server as all turns before left it |
| Clients.SessionEnds | src/server.rs:173-184 | the same for each of several clients, once it has had a turn after its last request |
| Clients.TurnsAreRun | src/server.rs:154-157 | any order of turns is a run of the server's state machine, with the same clock, so that all that holds of runs holds for several clients |
| ErrorTexts.RefusalText | src/command.rs:72-85 | the error text of a refused request contains CRLF exactly when the request has an unknown name, or an expiration that is no number, with a CRLF in it |
| ErrorTexts.CommandTextsQuotePayloads | src/command.rs:72-85 | the program's own texts quote these two payloads inside one line and contain no other CRLF |
| ReplyStream.ReplySendable | src/command.rs:253-278 | every reply to a well-formed command can be sent and read back |
| ReplyStream.AnswerSendable | src/server.rs:186-202 | the response to any decoded request, refused or accepted, can be sent and read back exactly when no CRLF is in the name, the expiration or the disk error that it quotes |
| ReplyStream.ClientReadsConnection | src/server.rs:164-211 | a client reads back exactly the responses of its whole connection if and only if none of its requests is answered with an error that quotes a CRLF |
| ReplyStream.EachClientReads | src/server.rs:164-211 | the same for each of several clients that take turns, and only its own requests matter |
| ReplyStream.SetThenGet | src/server.rs:164-211 | the bytes of SET and GET for one key are answered, from any state of the server, by the bytes of `OK` and of the value |
| ReplyStream.ResponsesSendable | src/server.rs:206-211 | over any run of commands, every response can be sent and read back if and only if no reported disk error contains CRLF |
| ReplyStream.ClientReadsReplies | src/server.rs:206-211 | a client that reads the printed responses of such a run gets exactly these if and only if no reported disk error contains CRLF |
| ReplyStream.EchoedNameIsCut | src/command.rs:475 | a request named by text with a CRLF is refused, and the error that quotes the name is not read back as sent |
| ReplyStream.EchoedExpirationIsCut | src/command.rs:230-232 | an EXPIRE or EXPIREAT with a CRLF in the number is refused, and the error that quotes it is not read back as sent |

## Left out

- KeyStore.KeyStore.GetMut: the lent reference is a function applied to the value before the borrow ends.
- KeyStore.KeyStore.Del: searches with the same loop as a lookup instead of a copy of it.
- KeyStore.ProbeIndex: the methods add without wrapping; that a wrapping sum selects the same bucket is stated for capacities up to 2^64, which no machine exceeds.
- Server.RestoreKeystore: requires a log without read commands, where the program would panic; `Server.LogFidelity` shows that its own logs have none.
- Server.RunServer: starts from an empty log and takes commands that accepted requests give; `Connection.ServeConnection` and `Clients.ServeClients` start from bytes.
- ReplyStream.ClientReadsConnection: assumes fewer than 2^63 keys in the store, as an array length must fit a signed word; the same holds of the other lemmas on replies.
- Clients.ServeClients: a turn reads a request and answers it; restarts end all connections and are steps of `Server.RunServer` only.
- Entries of the table are values in an array of options; a swap of two slots is an assignment of values.
- Memory and the address space are unbounded; reserving capacity for a declared length has no effect in the model.
- The clock is read once per command, not once per key of a list.
- Sockets, tasks, timers, logging, configuration and the async readers, which run the same loops.
- The log file and its syncing: torn writes, disk errors while reading, and data lost before a sync.
- `Display` texts: those of command errors are modelled, those of request errors are parameters without CRLF, which the program's one-line texts satisfy; the kinds of integer errors, which print alike, are one error.
- `UnexpectedSstr` carries the raw bytes instead of their lossy text.
- The internals of the standard hasher.
