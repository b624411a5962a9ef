# A verified model of CackDb

CackDb is a small Redis-like server in C. This project models its hard parts in Dafny and proves what they promise: the
RESP2 codec and the connection pump around it, the Robin Hood hash table, the doubly linked list, the keyspace with
time-to-live, the snapshot format, the command processor, and the tokeniser of the command-line client.

`dafny verify dfyconfig.toml` checks everything.

## How it is organised

Code that updates state in place is modelled as classes and methods with loops (`RespParser`, `ReplyBuffer`,
`Connection`, `HashTable`, `LinkedList`, `Database`, `SnapshotFile`, `CommandHandlers`, the lower half of `Cli`). Each
method is proved against a function on values, and the properties are proved about those functions.

| component | as written | specification | properties |
|---|---|---|---|
| wire format (`src/resp.c`) | `RespParser`, `ReplyBuffer` | `Resp`, `CText` | `Resp`, `Wire`, `Decimal` |
| connection (`src/server.c`) | `Connection` | `Pump` | `Pump`, `ChunkExactness`, `Pipeline` |
| hash table (`src/hashtable.c`) | `HashTable`, `Probe` | `RobinHood`, `TableModel`, `Fnv` | `RobinHood`, `SetExactness`, `TableRuns`, `TameRuns`, `TameExactness`, `TableExamples` |
| list (`src/list.c`) | `LinkedList` | sequences | `LinkedList` |
| keyspace (`src/db.c`, `src/object.c`) | `Database` | `Keyspace` | `Keyspace`, `TimedMap`, `Deadlines` |
| snapshot (`src/persist.c`) | `SnapshotFile` | `Snapshot` | `Snapshot`, `SnapshotCut` |
| commands (`src/command.c`) | `CommandHandlers` | `Commands` | `CommandEffects`, `CommandMeaning`, `CommandView`, `Replies`, `ServerRuns` |
| client (`cli/cli.c`) | `Cli` | `Cli` | `Cli`, `CliLines` |

The main results, each for all inputs or all runs:

- TCP chunking is invisible: `Pump.ChunkingInvisible`, and for the connection object with its fixed read buffer and
  growing write buffer, `Connection.ServeChunks`.
- Written values are read back, followed by anything; every verdict but "incomplete" is final: `Resp.RoundTrip`,
  `Resp.ParseStable`.
- n pipelined commands produce exactly n well-formed replies, in order: `Pipeline.PipelineOneToOne`,
  `Pipeline.EndToEnd`.
- Sweeps, and restarts from a complete snapshot, are invisible to clients wherever they happen, with the exact condition
  for the commands that count stored keys: `ServerRuns.UpkeepInvisible`, on top of `TimedMap.StepRefines` and
  `Snapshot.SnapshotRoundTrip`.
- Each of the 23 commands, by its name in capitals or small letters, leaves and answers what `CommandEffects` says in terms
  of the stored entries alone; wrong argument counts and unknown names answer errors and change nothing
  (`CommandEffects.WrongCountAnswers`, `CommandEffects.UnknownAnswers`).
- A text is stored as a number if and only if all of it is a numeral that fits 64 bits: `Keyspace.TryParseExact`.
- A key with a deadline is shown up to that millisecond and not after it, with any sweeps and restarts in between:
  `Deadlines.SetWithDeadline`, `Deadlines.ExpireThenGet`, `Deadlines.LoadedUntil`.
- A line of the client has exactly the tokens of its layout in blanks, quoted and plain words: `CliLines.TokensExact`.
- A cut snapshot loads exactly the entries and list elements wholly within the cut: `SnapshotCut.TruncatedLoad`.
- The displacement loops end, conserve entries and keep load and space bounds on every run; lookups are exact precisely
  on tables that satisfy the Robin Hood condition; over every run that is tame at each step the table, as written, is a
  map; and a set whose walk does not come round to its start is a map update if and only if it is tame, which for a stored
  key means that its walk meets the key before any tombstone: `RobinHood.LookupsExact`, `TableRuns.SpaceBound`,
  `TameRuns.TameRunIsMap`, `TameExactness.SetExact`, `TameExactness.RunExact`.

## Where the code does not do what it says

- The hash table is not a map on every run. After a displacement the loop in `ht_set` goes on at the new entry's offset
  rather than the displaced entry's own, so a stored key can become unfindable (`TableExamples.LostKey`); and a tombstone
  is reused before the key has been looked for behind it, so a deleted key can come back with an old value
  (`TableExamples.ResurrectedKey`). Both are given for any keys with the right ideal slots, and for keys that FNV-1a puts
  there (`TableExamples.RealLostKey`, `TableExamples.RealResurrectedKey`). The walk of an absent key is tame if every displaced entry
  jumps over slots only that its lookups pass, and the last one lands where no other entry's way goes; `TameRuns.TameOp`
  adds what is asked of stored keys and of resizes. `SetExactness` has the exact conditions without displacement,
  `TameExactness` those for any number of displacements, tombstones and stored keys included.
- A header line with a blank number field (`*` and CRLF) can make chunking visible, because `strtoll` skips the line end
  and reads whatever follows (`Pump.BlankFieldShowsChunking`). Behind a header line, a cut is invisible for every rest of
  the stream and every memory if and only if the field of the line is not blank
  (`ChunkExactness.HeaderCutIffNonBlank`); and for every stream, cut and memory, it is invisible if and only if it changes
  no verdict of the parser on a command before it (`ChunkExactness.CutExact`).
- A cut snapshot can leave an empty list in the keyspace, which no command and no complete snapshot does
  (`SnapshotCut.CutLeavesEmptyList`). It does so if and only if the cut lies in a live list, at or behind its count and
  before the end of its first element (`SnapshotCut.CutKeepsWellTyped`).
- DBSIZE and INFO count expired entries that nothing has removed yet. They count the live keys if and only if no expired
  entry is stored (`CommandView.CountsLiveIffSettled`).
- The reply to an unknown command is printed through two buffers of 128 bytes. It is sure to be one RESP value if and only
  if the name has no CRLF and at most 102 bytes (`Replies.UnknownReplyFraming`); `Replies.UnknownReplyIsValue` says which
  bytes behind the buffer make one of a longer name.
- A push answers the new length of a list only if that fits an `int` (`CommandMeaning.PushAnswersLength`); where it turns
  negative, LPUSH and RPUSH stop (`CommandMeaning.PushedUntilTooLong`); and LRANGE reaches all of a list only if its
  length fits (`LinkedList.VisibleAll`).
- A negative deadline stands for none. So EXPIRE with a negative number of seconds makes a key go away at once if and only
  if `now + seconds * 1000` is not negative; otherwise the key stays for good (`TimedMap.NegativeExpire`). The map of live
  entries that the keyspace refines has this rule too.
- DECR of an integer one above the least stores the difference and answers an error, because the least integer is the code
  for a type error. Whenever the difference fits 64 bits, it is answered if and only if it is not the least integer
  (`CommandEffects.CountersAnswer`).
- A string of 2^32 - 1 bytes in a snapshot is read into a block of 0 bytes, because the size of the block is computed in 32
  bits (`Snapshot.StringRoundTrip`).
- A comment calls the expiry sweep a sampling of random keys (`src/db.c:211`). The code looks at the first entries in
  table order and starts over after each removal. The model lets the order be arbitrary at each look.
- `README.md` of the repository lists BGSAVE; the command table has no such command, and the model follows the table.

## Conventions

- A `char` stands for a C `char`, a string for the bytes before its NUL. `long` and `int64_t` have 64 bits, `int` has
  32, and `atoi` is `strtol` cut to 32 bits, as in glibc on 64-bit machines.
- Where C leaves signed overflow undefined (INCR, deadlines), the model wraps at 64 bits.
- Slot indices are written with masks, as in the code, and proved equal to remainders. The hash is an arbitrary
  function, and FNV-1a where examples need keys.
- The float constants `0.70 * 100` and `0.20 * 100`, cut to integers, are 70 and 20.
- The clock is a parameter: one reading per database operation, and one per command in the command processor. The
  `k`-th command of a connection runs in the environment `clock(k)`, which also says whether a snapshot could be
  written and what lies in memory behind the scratch buffer that lines are printed to.
- The bytes in memory behind the read buffer are a parameter of the parser (`Tail`). `Ambiguous` and `Unclear` mark the
  streams on which they matter.

## Model

| member | source | states |
|---|---|---|
| CText.CutAtNul | src/util.c:52-60 | what `strndup` keeps of a stretch of memory: the longest prefix without NUL |
| CText.ScanPrinted | src/resp.c:44-51 | reading a printed integer gives the integer and stops at whatever non-digit follows |
| CText.StrToLLPrinted | src/resp.c:115-117 | `strtoll` of a printed 64-bit integer is that integer |
| CText.NumberFieldIsLocalIffNonBlank | src/resp.c:112-121 | a header's number is decided by the header line alone if and only if its field is not blank |
| CText.BlankFieldReadsOn | src/resp.c:112-121 | with a blank field the number is that of the text after the line |
| Decimal.StrToLLExact | src/command.c:55 | `strtoll` gives the 64-bit integer nearest to the numeral a text starts with, white space, sign and leading zeros allowed, and 0 without one |
| Decimal.PrintExact | src/command.c:73-76 | the printed form of a 64-bit integer is its one numeral without white space, plus or leading zeros |
| Decimal.ValueIsWeight | src/object.c:45-53 | the value of digits is their sum weighed by position |
| Decimal.ToInt32Exact | src/command.c:258-259 | cutting to an `int` gives the 32-bit integer that differs by a multiple of 2^32 |
| Wire.WrittenText | src/resp.c:46-52 | the bytes of simple strings and errors |
| Wire.WrittenNil | src/resp.c:68-70 | the bytes of NIL |
| Wire.WrittenNumbers | src/resp.c:54-76 | the bytes of integers, bulk strings and arrays, with canonical numerals |
| Wire.NoLineEnd | src/resp.c:93-94 | without CRLF every buffer is incomplete |
| Wire.TextLine | src/resp.c:100-113 | strings and errors are the header line up to a NUL; a kind of value that is none of the five is refused |
| Wire.NumberLine | src/resp.c:114-150 | for every header line with a number: integers, NIL for -1, refusal below, and bulk strings, which wait for their bytes and two more of any kind |
| Wire.ArrayLine | src/resp.c:152-169 | an array is its first element and the rest; the first element that is incomplete or refused settles the verdict |
| Resp.FindCrlf | src/resp.c:80-85 | the first CRLF, or none if there is none |
| Resp.ParseStable | src/resp.c:90-175 | a value or an error, once reached, is the same verdict, value and length with any bytes appended |
| Resp.ParseItemsStable | src/resp.c:142-169 | the same for the elements of an array |
| Resp.ParseIgnoresTail | src/resp.c:112-139 | bytes behind the buffer matter only if a blank number field is met |
| Resp.RoundTrip | src/resp.c:46-76 | parsing the written form of any value tree, followed by anything, gives the tree and exactly its length |
| Resp.RoundTripAll | src/resp.c:72-76 | the same for a sequence of written values read back as array elements |
| Resp.RoundTripInMemory | src/resp.c:90-175 | the round trip holds whatever lies behind the buffer |
| Resp.StrictPrefixIncomplete | src/resp.c:90-175 | every strict prefix of a written value is incomplete |
| Resp.ParseAllocation | src/resp.c:90-175 | a parse builds at most one value for every three bytes it consumes |
| Resp.Parse | src/resp.c:90-175 | an accepted parse consumes between 3 and all bytes |
| Resp.AmbiguousMeansBlank | src/resp.c:112-150 | only a header with a blank number field makes a verdict depend on memory behind the buffer |
| Resp.Formatted | src/resp.c:35-42 | a formatted line is appended with its length; below 128 bytes it is the line itself |
| Resp.ParseItems | src/resp.c:152-169 | an accepted array has exactly the announced number of elements, of at least three bytes each |
| RespParser.FindCrlfIn | src/resp.c:80-85 | the scanning loop finds the first CRLF |
| RespParser.ParseValue | src/resp.c:90-175 | the recursive parser over the buffer returns 0, -1 or the length exactly as the specification says, reading past the buffer as `strtoll` does |
| RespParser.ParseNumber | src/resp.c:112-150 | the three kinds of values with a number in their header, with NIL for -1 and an error below |
| RespParser.ReadBulk | src/resp.c:130-139 | a bulk string waits for its bytes and both end bytes, and is cut at a NUL |
| RespParser.ParseElements | src/resp.c:152-169 | the element loop collects the specified array, or the first verdict that is no value |
| ReplyBuffer.Buffer.Ensure | src/resp.c:22-27 | makes room by doubling and keeps the contents |
| ReplyBuffer.Buffer.Append | src/resp.c:29-33 | appends the data to the contents |
| ReplyBuffer.Buffer.AppendFormatted | src/resp.c:35-42 | appends what the scratch buffer of 128 bytes and the memory behind it make of a line of any length |
| ReplyBuffer.Buffer.WriteSimpleString | src/resp.c:46-48 | appends the formatted line of a simple string of any length |
| ReplyBuffer.Buffer.WriteError | src/resp.c:50-52 | appends the formatted line of an error of any length |
| ReplyBuffer.Buffer.WriteInteger | src/resp.c:54-58 | appends the written form of an integer |
| ReplyBuffer.Buffer.WriteBulkString | src/resp.c:60-66 | appends the written form of a bulk string |
| ReplyBuffer.Buffer.WriteNil | src/resp.c:68-70 | appends the written form of NIL |
| ReplyBuffer.Buffer.WriteArrayHeader | src/resp.c:72-76 | appends an array header |
| Pump.DrainSplit | src/server.c:139-160 | draining a stream in two steps is draining it at once: state, replies, commands, leftover and reason to stop |
| Pump.ChunkingInvisible | src/server.c:207-216 | however a stream is cut into chunks, the same commands run, the same replies are queued and the same bytes remain for the same reason |
| ChunkExactness.CutExact | src/server.c:139-160 | for every stream, cut and memory: draining at the cut and again later is draining at once, if and only if the parser's verdicts on the commands before the cut are the same with the rest there |
| ChunkExactness.ClearCut | src/server.c:139-160 | a cut behind bytes on which no verdict depends on memory is invisible, whatever follows |
| ChunkExactness.NoBlankIsClear | src/resp.c:112-150 | bytes without a blank number field are such bytes |
| ChunkExactness.HeaderCutIffNonBlank | src/resp.c:112-150 | a cut behind whole commands and a header line is invisible for every rest and memory if and only if the number field of the line is not blank |
| ChunkExactness.ChunkingInvisibleInMemory | src/server.c:207-216 | chunking is invisible with `strtoll` reading memory as it does, if the bytes in front of the last chunk are clear |
| Resp.SameValueSameLength | src/resp.c:90-175 | bytes, and more bytes behind them, that parse to one value parse to it with one length, whatever memory lies behind each |
| Pump.DrainIgnoresTail | src/server.c:139-160 | without a blank number field, bytes behind the buffer change nothing about a drain |
| Pump.DrainBlockIsDrain | src/server.c:139-160 | nor do the bytes left behind in the read buffer itself, as it is shifted after each command |
| Pump.UnclearMeansBlank | src/resp.c:112-150 | a drain depends on memory behind only if some header in the bytes has a blank number field |
| Pump.StaysUnclear | src/server.c:144 | a refused head of the buffer stays for good: later bytes pile up behind it and run nothing |
| Pump.BlankFieldShowsChunking | src/resp.c:141-150 | two chunks that run a command apart are refused together, because of a blank count |
| Connection.Client.constructor | src/server.c:30-39 | a fresh client has nothing pending, queued or sent |
| Connection.Client.GrowWrite | src/server.c:47-50 | makes room by doubling and keeps what is queued |
| Connection.Client.QueueWrite | src/server.c:46-53 | the data is queued behind what waits, and pending input is untouched |
| Connection.Client.Send | src/server.c:219-231 | what one send accepted moves from waiting to sent; sent plus waiting stays all replies ever queued |
| Connection.Client.Receive | src/server.c:207-214 | received bytes are appended to the pending ones |
| Connection.Client.ProcessInput | src/server.c:139-160 | the loop does to database, write buffer and read buffer exactly what draining the block of memory says, blank number fields included |
| Connection.Client.RunCommand | src/server.c:146-158 | one command is executed, its reply bytes queued and its bytes dropped |
| Connection.ServeChunks | src/server.c:207-216 | after all chunks, the queued replies, the leftover and the database are those of the whole stream drained at once |
| Probe.MaskIsMod | src/hashtable.c:20-22 | masking with a power of two less one is the remainder |
| Probe.ProbeIndexIsSlotAt | src/hashtable.c:20-22 | the probed slot is the ideal slot plus the step, around the array |
| Probe.ProbeDistanceIsDist | src/hashtable.c:25-27 | the masked distance is the offset from the ideal slot, and the unsigned subtraction does not go below zero |
| RobinHood.SwapProgress | src/hashtable.c:94-109 | each swap uses up some of the bounded room the entries have left |
| RobinHood.MoveProgress | src/hashtable.c:70-72 | each step past an occupied slot comes closer to a free one; with the above, the displacement loops end |
| RobinHood.PlaceConserves | src/hashtable.c:70-110 | placing turns one free slot into the new entry and keeps all others, through all displacements |
| RobinHood.FreshHashReplacesNothing | src/hashtable.c:86-92 | a key whose full hash no stored entry has replaces nothing on the way |
| RobinHood.FindExact | src/hashtable.c:114-133 | with unique keys an entry is found if and only if every slot from its ideal slot to it lets the walk pass |
| RobinHood.LookupsExact | src/hashtable.c:114-133 | every stored key is found if and only if the table satisfies the Robin Hood condition |
| RobinHood.FindIsMapLookup | src/hashtable.c:135-138 | on such a table a lookup is a map lookup, hit and miss |
| RobinHood.TombstoneRemoves | src/hashtable.c:144-154 | a tombstone removes exactly its key from the map and keeps every other entry findable |
| SetExactness.SetAtKey | src/hashtable.c:86-92 | a walk that meets the key is a map update |
| SetExactness.SetAtFree | src/hashtable.c:74-84 | a walk that ends at a free slot is a map update if and only if that was safe |
| SetExactness.SetWithoutDisplacement | src/hashtable.c:65-92 | if nobody is displaced, set is a map update if and only if the walk met the key, or an empty slot, or a tombstone with no copy of the key behind it that no other entry needs at a larger offset; always, without tombstones |
| TameExactness.SetWithOneDisplacement | src/hashtable.c:94-110 | if one entry is displaced into a free slot, tombstones included, set is a map update if and only if the slots that entry jumped over are open to it and no other entry needs the slot at a larger offset, even when the walk comes round |
| SetExactness.FillKeepsReachable | src/hashtable.c:74-84 | filling a free slot keeps every entry findable if and only if no other entry needs it at a larger offset |
| TableModel.RehashConserves | src/hashtable.c:184-212 | re-insertion keeps every entry as often as it was stored |
| TableModel.LoadThresholds | src/hashtable.c:61 | what the two load tests with truncating division mean |
| TableModel.InsertCounts | src/hashtable.c:74-84 | the probe loop keeps both counters exact |
| TableModel.SetValid | src/hashtable.c:59-112 | set keeps the capacity a power of two of at least 64, both counters exact, and the load below 71 percent |
| TableModel.DeleteValid | src/hashtable.c:144-163 | delete keeps the same, shrink included |
| TableModel.ValidHasEmpty | src/hashtable.c:59-63 | below that load a truly empty slot exists, so probing ends |
| TableRuns.Run | src/hashtable.c:31-163 | every run of sets and deletes on a fresh table reaches a valid table |
| TableRuns.SpaceBound | src/hashtable.c:156-182 | after every run the capacity is at most 128 or ten times the number of entries |
| TableRuns.ResizeConserves | src/hashtable.c:173-215 | resizing keeps the bag of entries, for any sufficient capacity |
| TableRuns.SetAddsOne | src/hashtable.c:59-112 | set of a key with an unused full hash adds exactly that entry |
| TableRuns.RunWellHashed | src/hashtable.c:65-111 | every stored hash is that of its key, after every run |
| TableRuns.DeleteIsRemoval | src/hashtable.c:144-163 | a delete that does not shrink the table removes the key, says whether it was there, and keeps the table good |
| TableExamples.LostKey | src/hashtable.c:70-109 | for any four keys with ideal slots p, p, p + 1 and p, setting them in this order leaves the third stored but not found |
| TableExamples.RealLostKey | src/hashtable.c:11-18 | the same for four keys and the table's own hash |
| TableExamples.ResurrectedKey | src/hashtable.c:74-84 | for any two keys with one ideal slot, three sets and two deletes after which the deleted key has an old value again |
| TableExamples.RealResurrectedKey | src/hashtable.c:11-18 | the same for two keys and the table's own hash |
| TableExamples.TameDisplacement | src/hashtable.c:94-109 | a run that displaces an entry and is tame |
| TableExamples.RealTameDisplacement | src/hashtable.c:11-18 | the same for five keys and the table's own hash |
| TameRuns.TamePlace | src/hashtable.c:70-110 | placing an absent key is a map update, through any number of displacements, if each jumps over open slots only |
| TameRuns.RehashKeepsMap | src/hashtable.c:173-215 | a resize whose placements are tame keeps the map and makes a good table |
| TameRuns.TameSet | src/hashtable.c:59-112 | a tame set, growth included, is a map update and says whether the key is new |
| TameRuns.TameDelete | src/hashtable.c:144-163 | delete with a tame shrink, or none, removes the key and says whether it was there |
| TameRuns.TameRunIsMap | src/hashtable.c:59-215 | over every tame run the table stores exactly the map's bindings and every lookup answers as the map does |
| TameExactness.Untouched | src/hashtable.c:70-110 | a walk that does not come round leaves every slot beyond its end as it was |
| TameExactness.ClosedStaysClosed | src/hashtable.c:94-109 | an entry that jumped over a slot which stops its lookups stays unreachable to the end of such a walk |
| TameExactness.TameExact | src/hashtable.c:70-110 | placing an absent key on a walk that does not come round is a map update if and only if the walk is tame, for any number of displacements and with tombstones |
| TameExactness.StoredKeyExact | src/hashtable.c:74-92 | setting a stored key is a map update if and only if its walk meets the key |
| TameExactness.SetExact | src/hashtable.c:59-112 | set of any key, growth included, is a map update if and only if it is tame, unless the walk of an absent key comes round |
| TameExactness.RunExact | src/hashtable.c:59-112 | in a run that was tame so far, the next set leaves the map of the run if and only if the run stays tame |
| HashTable.Table.constructor | src/hashtable.c:31-45 | a fresh table, rounded up to a power of two of at least 64 slots |
| HashTable.Table.Set | src/hashtable.c:59-112 | the code of set, in place, computes the set analysed above |
| HashTable.Table.Probe | src/hashtable.c:70-111 | its probe loop with swaps ends and computes the placing analysed above |
| HashTable.Table.FindEntry | src/hashtable.c:114-133 | the lookup loop ends within one round and returns the specified slot |
| HashTable.Table.Get | src/hashtable.c:135-138 | the value in that slot |
| HashTable.Table.Delete | src/hashtable.c:144-163 | the code of delete, with its shrink, computes the delete analysed above |
| HashTable.Table.Resize | src/hashtable.c:173-215 | the code of resize computes the re-insertion analysed above |
| HashTable.Table.Reinsert | src/hashtable.c:190-210 | its inner loop ends and computes the placing analysed above |
| LinkedList.List.LPush | src/list.c:30-40 | prepends, with forward links, backward links and length all spelling the new sequence |
| LinkedList.List.RPush | src/list.c:42-52 | appends, likewise |
| LinkedList.List.LPop | src/list.c:54-65 | removes and returns the first element, or nothing of an empty list |
| LinkedList.List.RPop | src/list.c:67-78 | removes and returns the last element, or nothing of an empty list |
| LinkedList.List.Range | src/list.c:84-108 | never walks off the end and returns the clamped slice of what the length, cut to an `int`, makes visible, for every list and every pair of 32-bit bounds |
| LinkedList.VisibleAll | src/list.c:85 | all of a list is visible if and only if its length fits an `int` |
| LinkedList.SliceSelects | src/list.c:84-97 | that slice holds exactly the elements whose index lies between the bounds, negative ones counted from the end |
| Keyspace.StepWellTyped | src/db.c:50-156 | no operation stores a string that parses as an integer, or an empty list |
| Keyspace.IncrOnStringFails | src/db.c:99-110 | incrementing a string is a type error and changes nothing |
| Keyspace.TryParseExact | src/object.c:45-53 | a text parses to a number if and only if it is white space, at most one sign and then digits to its end, and their value, which is the number, fits 64 bits |
| Keyspace.ObjOfExact | src/db.c:50-58 | a text is stored as the number it denotes, or as itself if it denotes none |
| Keyspace.NormalExact | src/command.c:62-80 | a stored text is shown as the canonical numeral of the number it denotes, or as itself if it denotes none |
| Keyspace.GetAfterSet | src/db.c:50-66 | get after set gives the number that all of the text denotes, shown as a canonical numeral, and any other text unchanged |
| Keyspace.NormalStores | src/object.c:45-53 | storing what get shows stores the same object; the normalisation is idempotent |
| TimedMap.StepRefines | src/db.c:32-204 | every operation leaves the live view that a map of live entries has, and replies as that map does if and only if it does not ask for the size or no expired entry is stored |
| TimedMap.RunRefines | src/db.c:32-236 | over whole runs with sweeps of any expired entries anywhere, the replies are those of that map if and only if no expired entry is stored whenever the run asks for the size |
| TimedMap.SweepsInvisible | src/db.c:212-236 | a run replies like another run of the same operations that is settled whenever it asks for the size, if and only if it is so itself |
| TimedMap.RunWellTyped | src/db.c:50-156 | well-typedness holds over whole runs |
| TimedMap.NegativeExpire | src/db.c:176-181 | a negative number of seconds makes the key go away if and only if the deadline is not negative |
| Database.SweptIsSweep | src/db.c:212-236 | what the sweep does is one of the sweeps those runs allow |
| Database.Database.CheckExpired | src/db.c:32-41 | removes the key exactly if it has a deadline and the clock is past it, and says so |
| Database.Database.GetEntry | src/db.c:43-46 | the entry, once expired ones are dropped |
| Database.Database.Set | src/db.c:50-61 | as the specified step |
| Database.Database.Get | src/db.c:63-66 | as the specified step, reply and new state |
| Database.Database.Del | src/db.c:68-71 | as the specified step, reply and new state |
| Database.Database.Exists | src/db.c:73-76 | as the specified step, reply and new state |
| Database.Database.Incr | src/db.c:79-110 | as the specified step, with all its type branches |
| Database.Database.GetOrCreateList | src/db.c:114-124 | the entry of the key, made an empty list if it is missing |
| Database.Database.Push | src/db.c:126-138 | as the specified step, at both ends, with the length in the reply cut to an `int` |
| Database.Database.Pop | src/db.c:140-156 | as the specified step, deleting a list that becomes empty |
| Database.Database.LLen | src/db.c:158-164 | as the specified step, -1 for other types |
| Database.Database.LRange | src/db.c:166-172 | as the specified step |
| Database.Database.Expire | src/db.c:176-181 | as the specified step |
| Database.Database.Ttl | src/db.c:184-190 | as the specified step: -2, -1 or whole seconds |
| Database.Database.Persist | src/db.c:192-198 | as the specified step |
| Database.Database.Flush | src/db.c:206-209 | leaves nothing |
| Database.Database.ExpireSweep | src/db.c:212-236 | within 100 ms nothing; otherwise removes at most 20 entries, only such whose deadline has passed, and all of them when expired entries times one more than the live ones is at most 20 |
| Database.Database.Sample | src/db.c:219-235 | the sampling loop, which restarts after each removal, whatever the order of iteration |
| Snapshot.U32RoundTrip | src/persist.c:28-44 | 32-bit integers are read back |
| Snapshot.I64RoundTrip | src/persist.c:32-48 | 64-bit integers are read back, negative ones included |
| Snapshot.StringRoundTrip | src/persist.c:36-61 | a C string is read back, within the block allocated for it, if and only if it is shorter than 2^32 - 1 bytes |
| Snapshot.SavedBytes | src/persist.c:63-142 | the bytes of an empty file, and of an entry of each type |
| Snapshot.EntryLoaded | src/persist.c:78-117 | loading past one written entry stores it exactly if it is live |
| Snapshot.SaveLoad | src/persist.c:63-229 | loading a saved listing stores its live entries in order, over whatever was there |
| Snapshot.SnapshotRoundTrip | src/persist.c:144-229 | loading at a time the file saved from any keyspace, in any table order, yields its live entries at that time, with types, values, list order and deadlines |
| Snapshot.SnapshotWellTyped | src/persist.c:194-214 | a complete save and load keeps the keyspace well typed |
| SnapshotCut.WithinIsWhole | src/persist.c:204-214 | how many elements of a list lie wholly within a cut |
| SnapshotCut.CutObj | src/persist.c:186-219 | a value cut anywhere is dropped, unless it is a list cut at or behind the end of its count: then the elements wholly within the cut are kept |
| SnapshotCut.EntryCut | src/persist.c:164-226 | what loading leaves of an entry cut anywhere, exactly: nothing, or a live list with the elements wholly within the cut |
| SnapshotCut.CutEntries | src/persist.c:164-226 | the loop over cut input loads every whole entry and exactly that part of the next one |
| SnapshotCut.TruncatedLoad | src/persist.c:144-229 | for a cut anywhere: below the magic nothing is loaded, otherwise exactly the live part of the entries wholly inside, and of a live list cut behind its count the elements wholly inside |
| SnapshotCut.CutKeepsWellTyped | src/persist.c:204-214 | a cut file leaves the keyspace well typed if and only if the cut does not lie in a live list at or behind its count and before the end of its first element |
| SnapshotCut.CutLeavesEmptyList | src/persist.c:204-214 | a cut right behind the element count leaves an empty list |
| SnapshotFile.File.ReadText | src/persist.c:50-61 | reads a length-prefixed string, or fails with the stream at its end |
| SnapshotFile.File.ReadElements | src/persist.c:204-214 | reads elements until one is missing |
| SnapshotFile.File.WriteText | src/persist.c:36-40 | appends the length prefix and the bytes |
| SnapshotFile.File.WriteOne | src/persist.c:78-117 | appends type, deadline, key and value |
| SnapshotFile.SaveTo | src/persist.c:63-142 | writes the file of some listing of the keyspace |
| SnapshotFile.LoadFrom | src/persist.c:144-229 | does to the database what the specified load says, and nothing without the magic |
| SnapshotFile.LoadLoop | src/persist.c:164-226 | the loop over entries, with its skipping of expired ones |
| SnapshotFile.SaveAndReload | src/persist.c:63-229 | save, then load into a fresh database: exactly the live entries |
| Commands.RecogniseExact | src/command.c:350-394 | a name reaches a table entry if and only if it is that entry's name up to case; no entry shadows another |
| CommandEffects.NameExact | src/command.c:350-394 | up to case means: each letter as in the table or its small form |
| CommandEffects.WrongCountAnswers | src/command.c:28-311 | for each of the 23 names, spelled out with its least number of arguments: fewer, or an odd number of them after MSET, answer that command's error and change nothing |
| CommandEffects.UnknownAnswers | src/command.c:396-398 | a name that is none of the 23 answers an error with the name and changes nothing |
| CommandEffects.BulksRun | src/command.c:377-394 | an array of bulk strings is run as the arguments it holds |
| CommandEffects.RejectedAnswers | src/command.c:378-387 | what is no array, or does not start with a string, answers an error and changes nothing |
| CommandEffects.PingAnswers | src/command.c:28-36 | PING answers PONG, or its argument |
| CommandEffects.SetBindsUntil | src/command.c:38-60 | SET binds the key to the number its text denotes or to the text, until the deadline of the last option pair `EX` with a text that reads as a positive number, or for good |
| CommandEffects.GetAnswers | src/command.c:62-80 | GET answers a live string, a live integer as a canonical numeral, an error for a list, NIL otherwise, and drops the key if its deadline has passed |
| CommandEffects.DelRemovesKeys | src/command.c:82-94 | DEL leaves the keyspace without its keys and counts the live ones among them, each once |
| CommandEffects.ExistsAnswers | src/command.c:96-103 | EXISTS answers 1 for a live key and 0 otherwise |
| CommandEffects.IncrAdds | src/command.c:105-117 | INCR adds 1 to a live integer, keeps its deadline and answers the sum; a missing key becomes 1 without deadline; other values are an error without effect |
| CommandEffects.DecrSubtracts | src/command.c:119-131 | DECR subtracts 1 likewise; a missing key becomes -1 |
| CommandEffects.CountersAnswer | src/command.c:105-131 | where the sum fits 64 bits INCR answers it; where the difference does, DECR answers it if and only if it is not INT64_MIN |
| CommandEffects.MSetBindsAll | src/command.c:133-144 | MSET binds every key to the text of the last pair that names it, without deadline, and leaves the others as they were |
| CommandEffects.MGetAnswers | src/command.c:146-168 | MGET answers each key in order as GET does, with NIL for a list, and drops the keys among them whose deadlines have passed |
| CommandEffects.LPushPrepends | src/command.c:172-188 | LPUSH puts its values in front, the last foremost, keeps the deadline, creates a missing list, and answers the length as an `int`, up to the first value that makes it negative; another type is an error without effect |
| CommandEffects.RPushAppends | src/command.c:190-206 | RPUSH puts its values behind in order, likewise |
| CommandEffects.AllAccepted | src/command.c:172-206 | all values are pushed and their number counts in full, if the length fits an `int` |
| CommandEffects.LPopTakesFirst | src/command.c:208-221 | LPOP removes and answers the first element, and removes the key with the last one |
| CommandEffects.RPopTakesLast | src/command.c:223-236 | RPOP removes and answers the last element, likewise |
| CommandEffects.LLenCounts | src/command.c:238-250 | LLEN answers the length, 0 without a live key, and an error for other types |
| CommandEffects.LRangeSelects | src/command.c:252-268 | LRANGE answers the elements from its first bound to its second, each read as a number, cut to an `int`, and counted from the end if negative |
| CommandEffects.ExpireSets | src/command.c:272-280 | EXPIRE gives a live key the deadline `now + seconds * 1000` and answers 1, or answers 0 |
| CommandEffects.TtlAnswers | src/command.c:282-289 | TTL answers the whole seconds left, -1 without deadline, -2 without a live key |
| CommandEffects.PersistClears | src/command.c:291-298 | PERSIST removes a deadline and answers 1, or answers 0 |
| CommandEffects.DbSizeCounts | src/command.c:302-305 | DBSIZE answers how many entries are stored and changes nothing |
| CommandEffects.FlushDbEmpties | src/command.c:307-311 | FLUSHDB answers OK and leaves nothing |
| CommandEffects.InfoCounts | src/command.c:313-323 | INFO answers its four lines, with the number of stored entries |
| CommandEffects.SaveAnswers | src/command.c:325-332 | SAVE answers OK or an error, as the file could be written, and changes nothing |
| CommandEffects.ShutdownAnswers | src/command.c:334-339 | SHUTDOWN answers OK and changes nothing |
| Deadlines.SetWithDeadline | src/db.c:32-46 | SET with EX at `now`, any sweeps and restarts, then GET: the text is shown if and only if the clock is at most `now + seconds * 1000`, otherwise NIL |
| Deadlines.ExpireThenGet | src/db.c:176-181 | EXPIRE on a live key at `now`, any sweeps and restarts, then GET: NIL if and only if the deadline is not negative and the clock is past it, otherwise the value |
| Deadlines.LoadedUntil | src/persist.c:172-226 | a saved entry is there after a load if and only if its deadline has not passed, unchanged, and GET shows it until it has |
| Commands.GetAll | src/command.c:154-167 | MGET has one reply element per key |
| CommandMeaning.DelRemoves | src/command.c:82-94 | DEL removes the given keys from the live entries and counts the live ones among them, each once |
| CommandMeaning.MSetBinds | src/command.c:133-144 | MSET overrides the live entries with its bindings, the last of equal keys winning |
| CommandMeaning.MGetLooksUp | src/command.c:146-168 | MGET answers each key from the live entries and changes none |
| CommandMeaning.PushExtends | src/command.c:172-206 | LPUSH puts its values in front in reverse order, RPUSH behind in order, keeping the deadline and answering the length as an `int`, up to the first value that makes it negative; another type is an error without effect |
| CommandMeaning.PushedAll | src/command.c:172-206 | all values are pushed if the length fits an `int` in the end |
| CommandMeaning.PushedUntilTooLong | src/command.c:172-206 | of values that take a list beyond `int`, those after the first that does are not pushed |
| CommandMeaning.PushAnswersLength | src/db.c:126-138 | a push answers the new length if and only if it fits an `int` |
| CommandMeaning.SetBinds | src/command.c:38-60 | SET, with any number of option pairs, binds the key until the deadline of the last positive EX, or for good without one |
| CommandView.ExecAgrees | src/command.c:377-399 | every command acts on the live entries alone and replies from them alone, except that DBSIZE and INFO reply alike if and only if as many keys are stored |
| CommandView.CountsLiveIffSettled | src/command.c:302-323 | DBSIZE and INFO count the live keys if and only if no expired entry is stored |
| CommandView.ExecWellTyped | src/command.c:377-399 | every command keeps the keyspace well typed |
| ServerRuns.RunOnView | src/server.c:234-235 | a run with sweeps and restarts replies as its commands alone would on the live entries, if and only if no expired entry is stored whenever it counts |
| ServerRuns.UpkeepInvisible | src/server.c:234-235 | a run replies like another run of the same commands that is settled whenever it counts, if and only if it is so itself, wherever the server sweeps and wherever it is restarted from a complete snapshot |
| ServerRuns.RunStaysWellTyped | src/persist.c:194-214 | no run of commands, sweeps and restarts stores a string that parses as an integer, or an empty list |
| ServerRuns.SetThenGet | src/command.c:38-80 | GET after SET, with sweeps and restarts in between, answers the canonical numeral of the number that all of the text denotes, or the text if it denotes none |
| ServerRuns.IncrOnStringAnswers | src/command.c:105-131 | INCR and DECR on a string answer with an error and change nothing |
| Replies.StepGood | src/db.c:50-198 | an operation adds at most one key or element, and its reply fits the wire format |
| Replies.HandleGood | src/command.c:28-339 | every handler's reply is one well-formed value |
| Replies.ExecValueGood | src/command.c:377-399 | every served value gets exactly one well-formed reply |
| Replies.ServedBytes | src/command.c:377-399 | and the bytes sent are those of that reply |
| Replies.UnknownReplyIsValue | src/command.c:396-398 | for any name and any memory behind the buffers: when the reply to an unknown command is one value |
| Replies.UnknownReplyFraming | src/command.c:396-398 | that reply is one value whatever the memory behind, if and only if the name has no CRLF and at most 102 bytes |
| CommandHandlers.CmdSet | src/command.c:38-60 | the option loop of SET |
| CommandHandlers.CmdDel | src/command.c:82-94 | the loop of DEL |
| CommandHandlers.CmdMSet | src/command.c:133-144 | the loop of MSET |
| CommandHandlers.CmdMGet | src/command.c:146-168 | the header and the loop of MGET write one array, with as many elements as announced |
| CommandHandlers.CmdPush | src/command.c:172-206 | the loops of LPUSH and RPUSH, which stop at the first refusal |
| CommandHandlers.WriteItems | src/command.c:252-268 | the header and the loop of LRANGE write one array, with as many elements as announced |
| CommandHandlers.CmdIncr | src/command.c:105-131 | INCR and DECR answer the sum, or an error for the type-error sentinel |
| CommandHandlers.CmdSimple | src/command.c:62-80 | the commands that are one database call |
| CommandHandlers.Dispatch | src/command.c:350-375 | every handler appends the specified reply and leaves the specified keyspace, which are those of `CommandEffects` |
| CommandHandlers.Execute | src/command.c:377-399 | the specified reply bytes are appended and the database becomes what the command makes of it, long unknown names included |
| Pipeline.DrainReplies | src/server.c:139-160 | a drain writes exactly the replies of the commands it ran, in order, each well formed |
| Pipeline.PipelineOneToOne | src/server.c:139-160 | the reply stream parses into exactly one value per command run, in order, with nothing left, however the input was chunked |
| Pipeline.DrainWritten | src/server.c:139-160 | a stream of written values is drained completely, value by value |
| Pipeline.EndToEnd | src/server.c:207-216 | written commands, however chunked, all run in order and are each answered once |
| Cli.Tokens | cli/cli.c:165-189 | at most as many tokens as there is room for |
| Cli.TokensClean | cli/cli.c:165-189 | the tokens are C strings and together no longer than the line |
| Cli.ServerReadsTokens | cli/cli.c:165-204 | for any line with a token, the server's parser reads exactly the tokens and consumes exactly what was sent |
| Cli.QuotedRoundTrip | cli/cli.c:173-180 | quoting tokens and joining them with spaces is undone by the tokeniser, empty tokens and blanks included |
| CliLines.TokensOfLayout | cli/cli.c:165-189 | a line of words, each quoted without a quote inside, or non-empty without blanks and not starting with a quote, with blanks around them, gives their texts, as many as there is room for; an unclosed quote runs to the end |
| CliLines.EveryLineIsLaidOut | cli/cli.c:165-189 | every line is such a line |
| CliLines.TokensExact | cli/cli.c:165-189 | a line gives exactly these tokens if and only if it is laid out with words of these texts |
| CliLines.LineReachesServer | cli/cli.c:165-204 | the server's parser reads the first 128 words of any line |
| Cli.ClientToServer | cli/cli.c:165-204 | 1 to 128 quote-free tokens, quoted, sent and parsed, arrive as they were |
| Cli.CommandFits | cli/cli.c:191-203 | a line that fits the input buffer never overruns the output buffer |
| Cli.Tokenise | cli/cli.c:168-189 | the cursor loop notes exactly the tokens |
| Cli.TakeToken | cli/cli.c:172-188 | one token: in quotes, up to the next quote or the end, and the cursor behind that quote; otherwise up to the next space or tab or the end |
| Cli.WriteTokens | cli/cli.c:194-203 | the output loop writes the array of the tokens |
| Cli.BuildCommand | cli/cli.c:165-204 | the whole function writes the command for the line and returns its length, 0 without tokens |

## Left out

- Sockets, `select`, accepting clients, signals, the main loops, the banner, the read-eval-print loop and its reply parser and printer, and the web proxy: plumbing and display.
- Allocation failure, freeing, and memory safety beyond array bounds in the modelled loops.
- File opening, renaming and write failures: the snapshot is the bytes written, and whether SAVE succeeded is a parameter.
- The keyspace is a map, not the literal hash table, because the latter is a map on tame runs only; and lists inside the keyspace are sequences, with the linked list proved to refine a sequence on its own.
- Updating an entry or a list inside the table through a pointer: the model stores the new entry instead.
- The hash table's iterator and its order: saving and sweeping allow every order.
- Several clocks within one command: a command with several keys reads the clock once.
- Interleaving of several clients within `Connection`; `ServerRuns` covers it on the level of commands.
- A read buffer that is full when bytes arrive: `recv` then returns 0 and the server drops the client (`src/server.c:207-212`). `ServeChunks` is about chunks that fit.
- Memory behind the read buffer, the scratch buffer and the error buffer: it is arbitrary.
- Handlers that use an argument which is no string: they run into a null pointer. The model runs every array that has strings where its handler uses them.
- Loading a file that was not saved by the server and holds a string of 2^32 - 1 bytes: it overruns the block allocated for it.
- Byte order of the machine: little-endian is fixed.
- `ht_set` with two different keys of equal full hash on one displacement chain, where an entry's value can be replaced by another's: conservation is stated for keys with an unused full hash.
- TameExact: requires a walk that does not come round to its start; one that does can fill a slot that an earlier step of it jumped over, and then only the sufficient condition of TamePlace is stated, besides SetWithOneDisplacement.
- TameRunIsMap: a resize is required to be tame, which is sufficient and not necessary, since a later re-insertion can fill a slot that an earlier one jumped over; for sets, RunExact has the exact condition.
- DeleteIsRemoval: excludes a shrink, whose re-insertions can lose keys; TameDelete has the condition for it.
- ChunkingInvisibleInMemory: requires that the bytes in front of the last chunk are clear; CutExact has the exact condition for one cut.
- ServeChunks: requires that the stream has no blank number field, that chunks fit the read buffer when they arrive, and that the server can run every command in the stream.
- ExecValueGood: served values are non-arrays, empty arrays, arrays not starting with a string, and commands with strings where they are used whose name is known or at most 102 bytes long and without CRLF; UnknownReplyIsValue has the others.
- PipelineOneToOne: requires that the keyspace has room for every argument of a command when it runs, so that no count leaves 64 bits, and that a command has fewer than 2^31 arguments of fewer than 2^31 bytes.
- EndToEnd: likewise.
- SetBinds: deadlines that leave 64 bits are excluded.
- SetBindsUntil: likewise, and the clock is not negative.
- SetWithDeadline: likewise.
- ExpireSets: deadlines that leave 64 bits are excluded; there C leaves the sum undefined.
- ExpireThenGet: likewise.
- IncrAdds: says nothing about a sum that leaves 64 bits, which C leaves undefined.
- DecrSubtracts: likewise.
- WrittenNumbers: numbers are 64-bit integers, lengths and counts included.
- ExpireSweep: completeness is stated for few expired and live entries only; beyond that the sweep may never reach an expired entry behind 20 live ones.
