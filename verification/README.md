# A Dafny model of the Redis-like server

This project models the data structures and protocols of the server in `src/` and proves what they are for:

- **Listpack** (`src/listpack.cpp`, `src/listpack.h`): the packed byte array with its nine encodings, reverse-readable back
  lengths and in-place edits. Insertion, replacement and deletion refine the operation on a sequence; validation is exact;
  the forward and backward walks are inverse to each other, and where a walk fails is characterised exactly.
- **List commands** (`src/db/PUSH`, `LPOP`, `BLPOP`, `LRANGE`, `src/db/db.cpp`): a store of listpacks and queues of blocked
  clients. Every command refines a step on a sequence of strings and a queue; conservation of values, at most one answer per
  blocked client, service in order of arrival and timeouts neither early nor missed hold over every run.
- **Radix tree and stream** (`src/radix-tree.cpp`, `src/stream.cpp`, `src/stream.h`): edge splitting and pruned range search
  agree with a map and a sorted filter for all insertion orders; a stream is an append-only log with strictly increasing
  identifiers.
- **Stream commands** (`src/db/XADD`, `src/db/XREAD`): payloads come back byte for byte, polling readers miss nothing, and a
  blocked reader gets exactly the record that woke it. All replies are read back as a client of the protocol reads them.
- **Requests** (`src/parser/*`, `src/utils/utils.h`): parsing undoes printing for the replicated write commands, whatever the
  case of their names.
- **Replication** (`src/replication.cpp`, `src/slave-replication.cpp`): a step system of master and replicas with a
  conservation law on offsets, exactly when an acknowledgement can be trusted, and what WAIT reports. The master's and the
  replica's objects follow the steps of that system.
- **Geohash** (`src/geohash.cpp`) and **sorted set** (`src/sortedset.cpp`).

Objects that the source updates are classes here, with a `Valid()` predicate and a value that their methods are proved
against; buffers edited in place are arrays; loops are loops. What is claimed about whole runs is stated on the values.
`dafny verify dfyconfig.toml` checks everything.

## How the files fit together

| files | content |
|---|---|
| `Bytes`, `Decimal`, `Words`, `Sequences` | bytes, decimal text, words and their bytes, index ranges and orders |
| `ListpackCodec`, `ListpackWalk`, `Listpack`, `WideEntries` | encodings; validation and traversal; edits; traversal with 64-bit integers |
| `ListModel`, `ListpackStrings`, `ListCommands` | list keys as values and over runs; strings in a listpack; the commands |
| `LexOrder`, `RadixTree`, `RadixNodes` | byte order; the tree as a value; the tree in memory |
| `StreamIds`, `StreamLog`, `Streams` | identifiers; the log as a value and over runs; the Stream class |
| `Resp`, `Replies` | encoders, the payload reader and name comparison; replies as a client reads them |
| `StreamModel`, `StreamCommands`, `StreamReplies` | a stream key over runs; XADD and XREAD; what their clients read |
| `RequestParser`, `CommandParser` | tokens; commands printed and parsed |
| `ReplicationModel`, `Replication` | the protocol over runs; the classes of both ends |
| `GeoHash`, `SortedSets` | the other two components |

## What turned out not to hold

- **Auto identifiers.** `*` takes sequence number 1, not the last one plus 1, within one millisecond, so a third `*` in a
  millisecond is refused, and so is one after the clock has been set back. `StreamLog.AutoRefused` gives the runs and
  `StreamLog.AutoAccepted` the exact condition. Order is never violated.
- **Acknowledged offsets.** A replica counts the 37 bytes of every GETACK, the master does not, and a replica that registers
  late starts counting at 0. `ReplicationModel.AckIsSoundIff` says exactly when an ACK claims no write that the replica had
  not executed, `AckIsCompleteIff` when it claims all that it had. `ReplicationModel.WaitAnsweredTooEarly` is a run in which
  WAIT counts a replica that has been sent a write but has not executed it, and `SmallWrite` is such a write. As long as the
  GETACKs before it take no more bytes than the offset at registration, an ACK can be trusted (`AckCoversWrites`), and so can
  what WAIT reports when every replica registered at offset 0 and was asked once (`EveryRunAnswersTruthfully`).
- **Lost acknowledgements.** A write that comes in behind a GETACK, in the same read buffer, clears the write buffer with the
  answer in it. `ReplicationModel.AckSurvivesIff`: the answer survives exactly when the last message is a GETACK.
- **64-bit integers in a listpack.** `lpCurrentEncodedSizeBytes` has no case for them, so validation rejects exactly the
  listpacks that hold one (`Listpack.IntactIffNoWide`), and a walk fails its assert exactly when it arrives at one:
  `WideEntries.NextReached`, `PrevReached`, `SeekReached` and `LengthReached`. `ListpackStrings.StorableIff` says which strings
  are stored like that, and `AppendThenPopFails` that one of them, 3000000000, can be appended but not be popped again. The
  list commands require exactly that no walk meets one: RPUSH always works, LPUSH and BLPOP unless the first entry is one,
  LPOP as long as those it takes are none, LRANGE as `ListpackStrings.Fetchable` says.
- **Readers of later identifiers.** Every accepted XADD empties the queue of its key. A reader that waits for records after an
  identifier above the new one is released with the null array (`StreamModel.WakersGetTheNewRecord`).
- **Carriage returns.** The request parser ends a bulk string at its first carriage return rather than at its length. A printed
  write command is read back exactly when none of its words has one (`CommandParser.ParseUndoesPrintIff`); INCR of the key
  `a`, CR, `b` arrives as INCR of `a` (`AnotherKeyIsIncremented`).
- **Unknown commands.** The parser of an unknown name reads no further than the name but then clears the whole read buffer, so
  requests behind it are lost and not counted (`CommandParser.UnknownDropsTheBuffer`).
- **Counts.** A count header that has once read 65535 is not counted further, and pushes are answered with 65535 until an LRANGE
  finds out the length. `ListModel.EveryRunKnowsTheLength`: that cannot happen while the list stays shorter.

## Model

Paths are relative to the root of the repository.

| member | source | states |
|---|---|---|
| ListpackCodec.TagMasks | src/listpack.h:16-83 | The byte ranges used for the tags are exactly the bytes that pass the mask tests. |
| ListpackCodec.LpEncodeBacklen | src/listpack.cpp:358-401 | For every length below 2^35 the bytes written are the back length and their number is what lpEncodeBacklenBytes says. |
| ListpackCodec.LpDecodeBacklen | src/listpack.cpp:424-444 | Read right to left, at most five bytes, it yields the number of the 7-bit groups, or all ones for a sixth continuation. |
| ListpackCodec.BacklenRoundTrip | src/listpack.cpp:358-444 | Reading a written back length from its last byte gives the length, for every length below 2^35. |
| ListpackCodec.BacklenMeans | src/listpack.cpp:358-401 | The bytes of a back length are its 7-bit groups, the highest first, and all but the first have the continuation bit. |
| ListpackCodec.LpEncodeInteger | src/listpack.cpp:191-302 | Every signed 64-bit integer gets the bytes of the smallest of its six forms, at most nine. |
| ListpackCodec.IntRoundTrip | src/listpack.cpp:191-302 | Every signed 64-bit integer survives its 7, 13, 16, 24, 32 or 64-bit two's-complement form, and the reported entry size is right. |
| ListpackCodec.IntBytes | src/listpack.cpp:191-302 | Byte for byte: two's complement in the narrowest of the six forms, 13 bits with the high byte first in the tag, the wider ones with the low byte first behind the tag. |
| ListpackCodec.StrHeaderBytes | src/listpack.cpp:328-351 | The length of a string in 6 bits, in 12 bits with the high ones first, or in four bytes with the low one first. |
| ListpackCodec.StrRoundTrip | src/listpack.cpp:328-351 | Every string survives its 6, 12 or 32-bit length form. |
| ListpackCodec.EncodedIsEncoding | src/listpack.cpp:304-324 | What is chosen for a string is an encoding whose size the readers compute; it is a 64-bit integer exactly for canonical decimals outside 32 bits. |
| ListpackCodec.PlainRoundTrip | src/listpack.cpp:644-746 | Every byte string comes back byte for byte, whether it was stored as an integer or as a string. |
| ListpackCodec.ReportedSizeIsSkip | src/listpack.cpp:450-517 | The entry size reported by lpGetWithSize is the step of lpSkip, for every complete entry. |
| ListpackCodec.GetIsLocal | src/listpack.cpp:644-746 | What lpGetWithSize reads does not depend on what follows the entry. |
| ListpackCodec.LpStringToInt64 | src/listpack.cpp:114-188 | The loop with its overflow checks computes the 64-bit integer that the text denotes, or fails. |
| Decimal.Int64OfIsCanonical | src/listpack.cpp:114-188 | Accepted are exactly the canonical decimals of signed 64-bit integers, each as the integer it prints. |
| Decimal.ConvertPositive | src/utils/utils.h:13-28 | Accepts exactly the digit strings, the empty one included, with their value modulo 2^64. |
| ListpackWalk.ValidStep | src/listpack.cpp:19-48 | A successful validation step stays inside the body, moves forward by the entry size, and the back length it ends on is the size of the entry. |
| ListpackWalk.WalkIsPrefix | src/listpack.cpp:54-91 | The walk of the validator is a prefix of every tiling of the body. |
| ListpackWalk.WalkStops | src/listpack.cpp:54-91 | A walk that cannot go on is the only possible tiling, or there is none. |
| ListpackWalk.LpValidateIntegrity | src/listpack.cpp:54-91 | On every byte buffer it terminates, reads only inside, and accepts if and only if it is longer than a header, says its own size, ends with 0xFF and, when deep, is tiled by entries in as many steps as a known count says. |
| ListpackWalk.NextAdvances | src/listpack.cpp:532-544 | In a validated listpack lpNext moves from each entry to the following one, and no assert fails. |
| ListpackWalk.PrevRetreats | src/listpack.cpp:546-560 | lpPrev moves from each entry, and from the terminator, to the preceding one. |
| ListpackWalk.FirstAndLast | src/listpack.cpp:562-578 | lpFirst and lpLast find the ends, null for an empty listpack. |
| ListpackWalk.PrevUndoesNext | src/listpack.cpp:532-560 | The forward and the backward walk are inverse to each other on every validated buffer. |
| ListpackWalk.NullAtTheEnds | src/listpack.cpp:532-578 | Only the last entry has no successor and only the first no predecessor. |
| ListpackWalk.SeekForward | src/listpack.cpp:603-612 | On any buffer with a sound header, the left-to-right loop does as many steps of lpNext as asked for, unless the walk ends or fails before. |
| ListpackWalk.SeekBackward | src/listpack.cpp:613-622 | The right-to-left loop does as many steps of lpPrev as asked for, unless the walk ends or fails before. |
| ListpackWalk.LpSeek | src/listpack.cpp:580-623 | On any buffer with a sound header: null without a walk for a position that a known count shows to be out of range, else the walk from the nearer end, or from the end that the sign says. |
| ListpackWalk.SeekTiled | src/listpack.cpp:580-623 | On a validated buffer, whichever direction is picked, count known or not: the i-th entry for i >= 0, the &#124;i&#124;-th from the end for i < 0, null exactly when out of range. |
| ListpackWalk.CountEntries | src/listpack.cpp:624-642 | On any buffer with a sound header, the loop counts the entries that the forward walk meets, or fails where it does. |
| ListpackWalk.LpLength | src/listpack.cpp:624-642 | The known count, or the counted entries; a count that was found out is recorded in the header if it fits, and nothing else changes. |
| ListpackWalk.LengthTiled | src/listpack.cpp:624-642 | On a validated buffer the length is the number of entries. |
| ListpackWalk.SetNumElements | src/listpack.h:111-115 | Writes the count, low byte first, and leaves the byte count and the body alone. |
| ListpackWalk.SetTotalBytes | src/listpack.h:103-109 | Writes the byte count, low byte first, and leaves the element count and the body alone. |
| Listpack.EntryBytes | src/listpack.cpp:748-882 | Each entry and its back length lie between its offset and the next one. |
| Listpack.EntryView | src/listpack.cpp:644-746 | What the readers see at an entry is its own encoding, whatever follows. |
| Listpack.StepOverEntry | src/listpack.cpp:19-48 | A validation step succeeds at an entry exactly when it is not a 64-bit integer. |
| Listpack.HoldsTiled | src/listpack.cpp:54-91 | The entries of a listpack built by edits, without 64-bit integers, tile it, so that the traversal results apply. |
| Listpack.IntactIffNoWide | src/listpack.cpp:54-91 | Deep validation accepts a listpack built by edits if and only if no entry is a 64-bit integer. |
| WideEntries.NextReached | src/listpack.cpp:532-544 | In every listpack built by edits, lpNext at an entry is null at the last one, fails its assert if and only if the following entry is a 64-bit integer, and else is that entry. |
| WideEntries.PrevReached | src/listpack.cpp:546-560 | lpPrev at an entry or at the end marker is null at the first one, fails if and only if the preceding entry is a 64-bit integer, and else is that entry. |
| WideEntries.SeekReached | src/listpack.cpp:580-623 | lpSeek fails if and only if a 64-bit integer is on its way, which is from the end that it starts from up to the target; a position that a known count rules out is null; else it is the entry. |
| WideEntries.LengthReached | src/listpack.cpp:624-642 | lpLength fails if and only if the header does not say the count and there is a 64-bit integer; else it is the number of entries. |
| Listpack.OpenGap | src/listpack.cpp:809-845 | Growing, moving and shrinking replace the bytes at the gap and keep all others. |
| Listpack.LpEncodeString | src/listpack.cpp:328-351 | Writes the encoding of the string at a position and nothing else. |
| Listpack.UpdateHeader | src/listpack.cpp:864-880 | Byte count and element count follow the edit; a count of 65535 stays. |
| Listpack.StoreEntry | src/listpack.cpp:806-867 | Making room and storing the entry leave the bytes of the edited sequence behind the old header, and newp is the stated entry. |
| Listpack.Rewrite | src/listpack.cpp:785-882 | From the size check on: the bytes are those of the edited sequence, the header agrees, newp is the stated entry. |
| Listpack.LpInsert | src/listpack.cpp:748-882 | Insert before or after, replace and delete turn the bytes of a sequence into the bytes of the edited sequence, each said in so many words, with length, count header and newp; null exactly beyond 2^32-1 bytes. |
| Listpack.LpNew | src/listpack.cpp:93-103 | An empty listpack in a buffer of at least the capacity. |
| Listpack.FirstEntry | src/listpack.cpp:562-570 | lpFirst finds the first entry, null when empty, and fails its assert on a 64-bit integer. |
| Listpack.LpAppend | src/listpack.cpp:899-904 | The sequence gains the encoded string at its end. |
| Listpack.LpPrepend | src/listpack.cpp:913-919 | The sequence gains the encoded string at its front. |
| Listpack.LpDelete | src/listpack.cpp:920-923 | The sequence loses the entry; newp is the entry to its right or null. |
| ListpackStrings.StorableIff | src/listpack.cpp:485-506 | Exactly the canonical decimals of 64-bit integers outside 32 bits need the encoding that traversal rejects. |
| ListpackStrings.StringComesBack | src/db/LPOP/lpop_db.cpp:34-45 | Reading the i-th entry gives the i-th string byte for byte, even when it was stored as an integer. |
| ListpackStrings.AppendToExistingList | src/db/PUSH/push_db.cpp:20-34 | The listpack holds the old strings and the new one at the chosen end, 64-bit integers included; the reply is the new length if the header said the old one, and 65535 otherwise. |
| ListpackStrings.CreateNewList | src/db/PUSH/push_db.cpp:6-18 | A new listpack with the one string. |
| ListpackStrings.PopFirst | src/db/LPOP/lpop_db.cpp:27-53 | One round: the first string is returned and removed, or the list is empty. Only the first entry must not be a 64-bit integer. |
| ListpackStrings.AppendThenPopFails | src/db/LPOP/lpop_db.cpp:27-32 | The string 3000000000 can be stored, but on a list with that one string lpFirst fails its assert. |
| ListpackStrings.StorableIsFetchable | src/db/LRANGE/lrange_db.cpp:57-74 | Without 64-bit integers no LRANGE fails an assert. |
| ListpackStrings.RangeOf | src/db/LRANGE/lrange_db.cpp:30-74 | Unless a walk meets a 64-bit integer, index normalisation and fetching yield the clamped slice for any signed indices, and the header says the length afterwards if that is below 65535. |
| ListpackStrings.Collect | src/db/LRANGE/lrange_db.cpp:57-74 | The lpSeek loop yields the strings from one index to another. |
| ListCommands.DB.PushValueToList | src/db/PUSH/push_db.cpp:36-48 | One more string in the list of a key, other keys untouched; the result is the length, or 65535 exactly when the header does not say it. |
| ListCommands.DB.PushValues | src/db/PUSH/push_db.cpp:115-124 | The push loop appends or prepends all values, other keys untouched; the result is the length, or 65535 exactly when the header does not say it. |
| ListCommands.DB.HandlePush | src/db/PUSH/push_db.cpp:50-131 | With a client waiting and a value given, the front of the queue is sent the array of key and first value, that is the hand-off the conservation law counts, and old strings and given values are, as multisets, that value and the new strings; otherwise nobody is sent anything. The reply is the length the header knows, or 65535. Refines the push of the model. |
| ListCommands.DB.PopValue | src/db/LPOP/lpop_db.cpp:25-54 | Takes the front of the list of a key, other keys untouched. |
| ListCommands.DB.PopValues | src/db/LPOP/lpop_db.cpp:25-54 | The loop takes as many values as asked for or as there are, in order. |
| ListCommands.DB.HandleLpop | src/db/LPOP/lpop_db.cpp:6-75 | Refines take-front with a count: a null bulk string for nothing, a bulk string for one value, an array for several. |
| ListCommands.DB.HandleBlpop | src/db/BLPOP/blpop_db.cpp:6-56 | Refines the immediate pop or the enqueueing of the model: the array of key and value, a null bulk string for a key of another type, or no reply yet. |
| ListCommands.DB.HandleLrange | src/db/LRANGE/lrange_db.cpp:6-78 | The array of the clamped slice of the list of a key; the strings do not change. |
| ListCommands.DB.ExpireBlocked | src/db/db.cpp:238-282 | Of every queue, exactly the clients with a deadline at or before the clock get the null array, in order; exactly the others stay, in order. |
| ListCommands.FilterQueue | src/db/db.cpp:244-272 | The loop over one queue: answered, each with the null array, are exactly the clients with a deadline at or before the clock; the others are kept; both in order. |
| ListCommands.HandOffIsRead | src/db/PUSH/push_db.cpp:91-92 | What the waiting client reads: an array of key and value. |
| ListCommands.LpopMeans | src/db/LPOP/lpop_db.cpp:25-75 | The first so many strings, or as many as there are, leave the list; a client reads a null bulk string, the one string, or their array in order. |
| ListCommands.BlpopMeans | src/db/BLPOP/blpop_db.cpp:6-56 | A client reads the array of key and first string, which leaves the list; a null bulk string for a key of another type; or it joins the end of the queue with its deadline. |
| Replies.TextIsRead | src/utils/utils.h:122-130 | Wherever it stands and whatever bytes it holds, an encoded bulk string is read as its string. |
| Replies.IntegerIsRead | src/utils/utils.h:150-156 | An encoded integer is read as its value, negative ones included. |
| Replies.NullsAreRead | src/utils/utils.h:132-148 | The null bulk string and the null array are read as such. |
| Replies.ErrorIsRead | src/utils/utils.h:158-167 | An error is read as `ERR`, a space and its message, if that is one line. |
| Replies.ArrayIsRead | src/utils/utils.h:169-175 | An array header followed by so many replies is read as their array. |
| Replies.BulkArrayIsRead | src/utils/utils.h:177-184 | An encoded array of strings is read as these strings in order; the empty array as none. |
| Replies.IsReadAlone | src/utils/utils.h:114-184 | A reply that stands alone is read back and exactly consumed. |
| Sequences.SliceMeans | src/db/LRANGE/lrange_db.cpp:33-55 | The slice of LRANGE, and of range on sorted sets, is one stretch, made of exactly the positions that the signed indices ask for. |
| ListModel.PushAllIsConcat | src/db/PUSH/push_db.cpp:115-124 | RPUSH appends the values, LPUSH prepends them in reverse. |
| ListModel.ExpiryMeans | src/models/client.h:117-121 | An expiry check answers exactly the places of the queue with a deadline at or before the clock and keeps exactly the others, both in order. |
| ListModel.StepConserves | src/db/PUSH/push_db.cpp:71-131 | In every step, pushed plus stored before is handed out plus stored after, value by value. |
| ListModel.StepAnswers | src/db/BLPOP/blpop_db.cpp:6-56 | In every step, waiting clients are those from before and the new arrival, less those answered. |
| ListModel.EveryRunConserves | src/db/PUSH/push_db.cpp:71-131 | Over every run of push, LPOP, BLPOP and timeouts, what was pushed is what was delivered, popped or is still stored, as a multiset. |
| ListModel.EveryRunAnswersOnce | src/db/db.cpp:238-282 | Over every run, each client that ever blocked is still waiting or has been answered exactly once, by value or by timeout. |
| ListModel.EveryRunKeepsDeadlines | src/db/BLPOP/blpop_db.cpp:6-56 | Over every run, a waiting client waits with the deadline of the BLPOP that made it wait. |
| ListModel.EveryRunTimesOutLate | src/models/client.h:117-121 | Over every run a client is timed out only by an expiry check whose clock is at or past the deadline of its BLPOP, and never without one. |
| ListModel.EveryRunAnswersInTime | src/db/db.cpp:238-282 | After every run that ends with an expiry check nobody waits whose deadline is at or before its clock. |
| ListModel.EveryRunServesInOrder | src/db/PUSH/push_db.cpp:71-94 | Over every run, values go to waiting clients in order of arrival, whatever timed out in between. |
| ListModel.EveryRunKnowsTheLength | src/db/PUSH/push_db.cpp:31-34 | Over every run in which the list stays below 65535 elements, the header says its length, so that pushes are answered with it. |
| LexOrder.Diverged | src/radix-tree.cpp:142-151 | A key that is smaller without being a prefix stays smaller whatever follows: why a subtree may be skipped. |
| LexOrder.FirstDifference | src/radix-tree.cpp:142-151 | A key is smaller exactly when, behind a common prefix, it ends or has the smaller byte. |
| RadixTree.FindBelow | src/radix-tree.cpp:24-40 | Search goes on below the one child with the right first byte, if its whole label matches. |
| RadixTree.InsertKeepsForm | src/radix-tree.cpp:60-128 | Insertion keeps the invariant: labels not empty, siblings with distinct first bytes, every node below the root with data or two children. |
| RadixTree.FindAfterInsert | src/radix-tree.cpp:17-128 | After insertion, splits included, search finds the new value for the key and what it found before for every other key. |
| RadixTree.EntriesAscend | src/radix-tree.cpp:130-154 | The order of the tree walk is strictly ascending byte order without duplicates. |
| RadixTree.EntriesAreFound | src/radix-tree.cpp:17-44 | The tree walk meets a pair exactly when search finds it. |
| RadixTree.NothingPastEnd | src/radix-tree.cpp:145-147 | The early return past the end key loses nothing. |
| RadixTree.NothingBeforeStart | src/radix-tree.cpp:148-150 | Skipping a non-prefix below the start key loses nothing. |
| RadixTree.RangeIsSelect | src/radix-tree.cpp:130-154 | Range search with its prunings is the tree walk filtered to the range. |
| RadixTree.BuiltTreeIsMap | src/radix-tree.cpp:46-128 | For all insertion orders the tree is well formed and search returns the value given last for a key, or nothing. |
| RadixTree.RangeOfBuiltTree | src/radix-tree.cpp:130-154 | For all insertion orders range search yields exactly the pairs given last for their key whose key is not below the start, not above the end, and not the start if that is excluded, in strictly ascending byte order. |
| RadixNodes.MatchLength | src/radix-tree.cpp:3-15 | The loop computes the length of the longest common prefix. |
| RadixNodes.RadixTreeNode.BestMatch | src/radix-tree.cpp:70-83 | The longest-match loop with its early exit finds the child that shares the first byte, and how far it matches. |
| RadixNodes.RadixTreeNode.AddLeaf | src/radix-tree.cpp:85-92 | A new leaf goes where the map puts its label; ownership stays a tree. |
| RadixNodes.RadixTreeNode.SplitChild | src/radix-tree.cpp:108-127 | The split in place is the split of the value: the old child below the rest of its label, the new value at or below the split. |
| RadixNodes.RadixTreeNode.InsertImpl | src/radix-tree.cpp:60-128 | The recursion in place is insertion on the value, and only nodes of the tree are changed. |
| RadixNodes.RadixTreeNode.RangeSearchImpl | src/radix-tree.cpp:130-154 | Appends the range of the value to the result vector. |
| RadixNodes.RadixIndex.Insert | src/radix-tree.cpp:46-51 | Insertion on the value, creating the root if there is none. |
| RadixNodes.RadixIndex.Search | src/radix-tree.cpp:17-44 | The two nested loops return the stored value, and the empty string for a key without one. |
| RadixNodes.RadixIndex.RangeSearch | src/radix-tree.cpp:53-58 | All stored pairs in the range, in order. |
| StreamIds.BinaryRoundTrip | src/stream.h:28-75 | fromBinary inverts toBinary for all pairs of 64-bit parts. |
| StreamIds.BinaryOrder | src/stream.h:28-84 | Byte order of the 16-byte keys is isGreater, and keys are equal only for equal identifiers. |
| StreamIds.TextRoundTrip | src/stream.cpp:77-111 | fromStringForSearch reads the text of an identifier back, without overflow, as start and as end. |
| StreamIds.MillisecondText | src/stream.cpp:92-100 | A bare millisecond stands for its first identifier as a start and its last one as an end; `-` and `+` are the least and the greatest identifier. |
| StreamIds.InsertTexts | src/stream.cpp:35-76 | A full text names its identifier; a partial one takes the last sequence number plus 1, modulo 2^64, or 0. |
| StreamLog.AcceptedIffGreater | src/stream.cpp:5-21 | The checks of insert come to one: the text names an identifier above the last one. |
| StreamLog.AutoAccepted | src/stream.cpp:37-48 | `*` is accepted exactly when the clock is past the last millisecond, or on it with last sequence number 0; it becomes the clock with sequence number 0 in a new millisecond and 1 in the last one. |
| StreamLog.AutoRefused | src/stream.cpp:37-48 | The third `*` of a millisecond is refused, and so is one after the clock went back. |
| StreamLog.PartialAccepted | src/stream.cpp:60-66 | `ms-*` is accepted exactly for a later millisecond, or the last one while sequence numbers last. |
| StreamLog.FullAccepted | src/stream.cpp:5-34 | A full identifier is accepted exactly above the last one, and the reply is its text. |
| StreamLog.EveryRunIncreases | src/stream.cpp:5-34 | Over every run of attempts with any texts and clocks the log only grows, identifiers strictly increase, the last one is the greatest, 0-0 exactly when empty. |
| StreamLog.SelectKeys | src/stream.cpp:113-127 | Selecting keys in byte order is selecting records by identifier. |
| StreamLog.BetweenMembers | src/stream.cpp:113-127 | A range of the log holds exactly the records with an identifier in it. |
| StreamLog.BetweenMeans | src/stream.cpp:113-127 | Place by place: selected, in order, are exactly the records not below the start, not above the end, and not at an excluded start. |
| StreamLog.AppendsEntry | src/stream.cpp:23-31 | Inserting a key above all keys of a tree appends one entry to its ordered entries. |
| Streams.NewRecord | src/stream.cpp:23-31 | An accepted record extends the entries of the tree as it extends the log. |
| Streams.Stream.FromString | src/stream.cpp:35-76 | The identifier that the text names, given the last one and the clock. |
| Streams.Stream.FromStringForSearch | src/stream.cpp:77-111 | The identifier that a search text names. |
| Streams.Stream.Insert | src/stream.cpp:5-34 | Status and new log are those of the attempt; tree, last identifier and log stay in step. |
| Streams.Stream.XrangeData | src/stream.cpp:113-127 | The records of the log in the range in insertion order; failure exactly for a malformed text or an empty stream. |
| Resp.IsEqual | src/utils/utils.h:84-100 | True exactly for texts of one length whose bytes are equal, or differ by 32 where one of them is a capital letter. |
| Resp.FoldIsRecased | src/utils/utils.h:84-100 | So are the texts that the parser takes for the same name. |
| Resp.ParseBulkStringSequence | src/parser/parser.cpp:60-104 | The loops compute the strings of a sequence of bulk strings and whether it is well formed. |
| Resp.SequenceOfBulks | src/parser/parser.cpp:60-104 | A sequence of printed bulk strings parses to its strings, for arbitrary bytes, CRLF and dollar signs included. |
| StreamCommands.BuildPayload | src/db/XADD/xadd_db.cpp:11-17 | The loop builds the payload of the fields. |
| StreamCommands.FieldsComeBack | src/db/XADD/xadd_db.cpp:11-17 | The stored payload parses to the flattened fields and values, and that is what readers are sent. |
| StreamCommands.WriteEntries | src/db/XREAD/xread_db.cpp:47-58 | The loop over entries writes identifiers and fields of the records in order. |
| StreamCommands.DB.XreadResponse | src/db/XREAD/xread_db.cpp:30-58 | What a woken reader is sent: its records, or the null array. |
| StreamCommands.DB.HandleBlockedXreadClients | src/db/XREAD/xread_db.cpp:61-84 | The whole queue of the key is answered in order and is empty afterwards; other keys untouched. |
| StreamCommands.DB.HandleXadd | src/db/XADD/xadd_db.cpp:6-69 | Refines the XADD of the model: reply, log, wake-ups and error texts, other keys untouched. |
| StreamCommands.DB.ReadKey | src/db/XREAD/xread_db.cpp:112-155 | One round of the key loop. With BLOCK it blocks on `$`, on a missing key, and on a stream without records after the identifier, with that text or, for `$`, the last identifier of the stream; otherwise it yields exactly the records after the identifier. |
| StreamCommands.DB.HandleXread | src/db/XREAD/xread_db.cpp:86-186 | With BLOCK and nothing to get from the first key, nothing is written and the client joins the queue of that key with its text; with something to get from its one key it is sent that and queued nowhere. In general it blocks on one key or is sent records as BlocksAtTheFirst and SendsWhatThereIs say. |
| StreamCommands.DB.BlocksAtTheFirst | src/db/XREAD/xread_db.cpp:110-155 | A read with BLOCK blocks on the first key that is missing, is asked for with `$`, or is a stream without records after the identifier, with that identifier or, for `$`, the last one of the stream. |
| StreamCommands.DB.SendsWhatThereIs | src/db/XREAD/xread_db.cpp:110-162 | Otherwise, and always without BLOCK, the client is sent all records after the identifiers, for exactly the keys that have any, in their order. |
| StreamCommands.OneKeyIsTheModelStep | src/db/XREAD/xread_db.cpp:110-156 | For one key that holds no other data, the outcome and the step of the model are the same: with BLOCK and `$` or nothing after the identifier the client joins the queue; otherwise it is sent what there is. |
| StreamReplies.FlattenMeans | src/db/XADD/xadd_db.cpp:11-17 | Of the fields that are sent, field and value alternate in the order of XADD. |
| StreamReplies.AnswerIsRead | src/db/XREAD/xread_db.cpp:164-182 | What XREAD sends is read as one array: for each key in order the key and its records, from the first to the last, each as identifier and fields. |
| StreamReplies.WakeIsRead | src/db/XREAD/xread_db.cpp:36-58 | A woken reader reads the array of that one stream, or the null array if there is nothing for it. |
| StreamReplies.WokenAreTold | src/db/XREAD/xread_db.cpp:61-84 | Of the replies to woken readers each client is sent exactly its own, in their order. |
| StreamReplies.XaddReplyMeans | src/db/XADD/xadd_db.cpp:41-61 | The client of XADD reads the invalid-format error for a text without identifier, the 0-0 error for 0-0, the equal-or-smaller error for one not above the last, and else the text of the identifier that was stored. |
| StreamReplies.ReadersStay | src/db/db.cpp:284-324 | Of a queue of readers exactly those whose client has not expired stay, in order. |
| StreamReplies.ReadersAreTold | src/db/db.cpp:284-324 | An expired client is sent one null array for each of its places in the queue and nothing else; nobody else is sent anything. |
| StreamCommands.DB.ExpireReaders | src/db/db.cpp:284-324 | Exactly the expired readers leave the queues; each gets the null array in its write buffer, queue by queue in the order of the queue; the others stay in order. |
| StreamModel.EveryRunIsQuiet | src/db/XREAD/xread_db.cpp:61-84 | Over every run no blocked reader has unread records. |
| StreamModel.WakersGetTheNewRecord | src/db/XREAD/xread_db.cpp:14-59 | A woken reader gets exactly the record that woke it, or the null array if that is not after its identifier. |
| StreamModel.DollarReaderGetsTheNextRecord | src/db/XREAD/xread_db.cpp:110-125 | A client that blocks with `$` is answered by the next accepted XADD, whatever happens in between, with exactly its one record. |
| StreamModel.BlockedReaderGetsTheNextRecord | src/db/XREAD/xread_db.cpp:127-149 | A client that blocks with an identifier after which there is nothing is answered by the next accepted XADD, whatever happens in between: with exactly its record if that is above the identifier, else with the null array. |
| StreamModel.PollingReaderMissesNothing | src/db/XREAD/xread_db.cpp:142-155 | A reader that polls with its last identifier, interleaved with any XADDs, has received every record after its start exactly once and in order. |
| StreamModel.ReadersStartOnTrack | src/db/XREAD/xread_db.cpp:142-155 | A reader can start like that from every text that names an identifier. |
| RequestParser.ClientContext.CalculateLength | src/parser/parser.cpp:40-58 | The loop reads digits up to a carriage return, modulo 2^64, and leaves the position behind the line. |
| RequestParser.ClientContext.Parse | src/parser/parser.cpp:6-38 | The token at the read position, and the position behind it. |
| RequestParser.TokenOfHeader | src/parser/parser.cpp:6-19 | A printed array header is read as its length and exactly consumed. |
| RequestParser.NextOfBulk | src/parser/parser.cpp:20-36 | A printed bulk string without carriage return is read back and exactly consumed. |
| RequestParser.NextIsCut | src/parser/parser.cpp:25-34 | A printed bulk string with a carriage return is read up to the first one, and reading goes on two bytes behind it. |
| RequestParser.NextIsContentIffPlain | src/parser/parser.cpp:25-34 | A printed bulk string is read back as its content if and only if that has no carriage return. |
| CommandParser.ToResp | src/parser/command.h:323-561 | The printers of the write commands produce the array of their words. |
| CommandParser.SetToResp | src/parser/command.h:333-357 | The conditional count and flags print the words of SET. |
| CommandParser.XaddToResp | src/parser/command.h:547-561 | The field loop prints the words of XADD. |
| CommandParser.ListToResp | src/parser/command.h:417-427 | The value loops print the words of RPUSH, LPUSH and ZREM. |
| CommandParser.ParseSetCommand | src/parser/command-parser.cpp:149-211 | Key, value and the flag loop with EX and PX as the reading functions define them. |
| CommandParser.ParseValues | src/parser/command-parser.cpp:265-275 | The value loop of the list commands. |
| CommandParser.ParseXaddCommand | src/parser/command-parser.cpp:421-459 | Key, identifier and the field loop. |
| CommandParser.ParseLpopCommand | src/parser/command-parser.cpp:352-380 | Key and optional count, truncated to 32 bits. |
| CommandParser.ParseReplConfCommand | src/parser/command-parser.cpp:591-635 | The four kinds of REPLCONF. |
| CommandParser.ParseCommand | src/parser/command-parser.cpp:11-132 | One command is taken from the buffer as the reading functions say; stray bulk strings are skipped; an unknown name clears the buffer. What that means for a printed request: SetIsRead to UnknownDropsTheBuffer. |
| CommandParser.FlagsComeBack | src/parser/command-parser.cpp:168-208 | Printed EX and PX flags are read back. |
| CommandParser.ValuesComeBack | src/parser/command-parser.cpp:265-275 | Printed values are read back in order. |
| CommandParser.PairsComeBack | src/parser/command-parser.cpp:440-456 | Printed fields are read back in order. |
| CommandParser.DispatchBack | src/parser/command-parser.cpp:31-116 | The name chooses the command's own parser, which makes the same command of the remaining words. |
| CommandParser.SetIsRead | src/parser/command-parser.cpp:149-211 | The words SET, key, value and then EX or PX with a number are the command with this key, value and expiry. |
| CommandParser.ListsAreRead | src/parser/command-parser.cpp:252-326 | The words RPUSH, LPUSH or ZREM, key and values are that command with this key and these values in order. |
| CommandParser.KeysAreRead | src/parser/command-parser.cpp:352-380 | The words INCR and key, or LPOP, key and a count, are that command. |
| CommandParser.XaddIsRead | src/parser/command-parser.cpp:421-459 | The words XADD, key, identifier and then field and value by turns are the command with these fields in order. |
| CommandParser.DispatchIgnoresCase | src/parser/command-parser.cpp:31-116 | The same parser is chosen for every name that is equal up to case. |
| CommandParser.ParseIgnoresCase | src/parser/command-parser.cpp:31-116 | A printed write command whose name, EX and PX have been recased letter by letter is read as the same command, takes as many bytes and leaves the same rest. |
| CommandParser.UnknownDropsTheBuffer | src/parser/command-parser.cpp:108-129 | A request with any other name is an unknown command: only header and name are counted and the whole buffer is gone. |
| CommandParser.ParseUndoesPrint | src/parser/command-parser.cpp:11-132 | Parsing a printed SET, INCR, RPUSH, LPUSH, LPOP, XADD or ZREM without carriage returns gives the same command, leaves exactly what follows, and bytes_processed is its printed length. |
| CommandParser.ParseUndoesPrintIff | src/parser/command-parser.cpp:11-132 | A printed write command is read back as itself if and only if none of its words has a carriage return. |
| CommandParser.AnotherKeyIsIncremented | src/parser/parser.cpp:25-34 | A printed INCR of a key of `a`, carriage return and `b` is read back as INCR of `a`. |
| CommandParser.GetAckComesBack | src/parser/command-parser.cpp:617-622 | GETACK takes 37 bytes and is recognised. |
| CommandParser.AckComesBack | src/parser/command-parser.cpp:623-632 | The master reads the offset that a replica acknowledges. |
| ReplicationModel.ParseShrinks | src/parser/command-parser.cpp:11-132 | A parsed command has taken bytes out of the buffer, which is why the replica's loop ends. |
| ReplicationModel.StreamIsHandled | src/slave-replication.cpp:37-76 | A concatenation of printed commands and GETACKs is handled one by one as listed, and the buffer is empty afterwards. |
| ReplicationModel.HandledSize | src/slave-replication.cpp:56-73 | The replica's count is the printed size of what it handled, and it executed the writes in order. |
| ReplicationModel.EveryRunKeepsWorld | src/replication.cpp:121-170 | Over every run each replica is where the handled part of its stream puts it, and every offset under way was reported for a GETACK it handled. |
| ReplicationModel.OffsetsAreConserved | src/replication.cpp:315-362 | Processed plus undelivered bytes equal master offset minus offset at registration plus 37 per GETACK, exactly when counted and printed bytes agree. |
| ReplicationModel.EveryRunConservesOffsets | src/replication.cpp:315-362 | So it is over every run with writes in canonical form. |
| ReplicationModel.SettleMeans | src/replication.cpp:172-216 | Told are exactly the waiting clients for which at least as many replicas as they need have an offset at or past their target, each that number; exactly the others go on waiting; both in order. |
| ReplicationModel.ExpireMeans | src/replication.cpp:218-255 | Told are exactly the clients whose time is up, each the number of replicas at or past its target; exactly the others go on waiting; both in order. |
| ReplicationModel.EveryRunAnswersWaits | src/replication.cpp:172-216 | Over every run nobody waits for a number of replicas that has been reached. |
| ReplicationModel.AckSurvivesIff | src/slave-replication.cpp:56-73 | Of a read buffer's messages, the answer to a GETACK is left in the write buffer exactly when the last one is a GETACK, and it counts all messages before that. |
| ReplicationModel.AckIsSoundIff | src/replication.cpp:315-362 | An acknowledged offset never claims a write that had not been executed at its GETACK, exactly when all writes had been, or the GETACKs before it take fewer bytes than the offset at registration and the next write. |
| ReplicationModel.AckIsCompleteIff | src/slave-replication.cpp:59-69 | It claims every write that had been executed exactly when the GETACKs before it take at least as many bytes as the offset at registration. |
| ReplicationModel.AckCoversWrites | src/replication.cpp:172-216 | Whenever the GETACKs before it take no more bytes than the offset at registration, an ACK that reaches the target of the first n writes comes from a replica that has executed these n writes, in order. |
| ReplicationModel.EveryRunHonoursAcks | src/replication.cpp:121-170 | The same for the recorded offset in every canonical run, if all GETACKs but the last take no more bytes than the offset at registration; at offset 0 one GETACK is allowed. |
| ReplicationModel.EveryRunAnswersTruthfully | src/replication.cpp:121-255 | In every canonical run in which every replica registered at offset 0 and was asked at most once, whoever is told n by WAIT, at once, on an ACK or on a timeout, can rely on n replicas having executed every write before that WAIT. |
| ReplicationModel.WaitAnsweredTooEarly | src/replication.cpp:134-151 | A run in which WAIT counts a replica that has been sent the second write but has executed only the first. |
| ReplicationModel.SmallWrite | src/parser/command.h:400-405 | INCR of a key of one letter is such a write: it takes 21 bytes. |
| Replication.SlaveReplicationClient.ProcessCommands | src/slave-replication.cpp:37-76 | The loop does to buffers and counters what the processing function says; an ACK carries the count before its GETACK. |
| Replication.SlaveReplicationClient.ProcessReadBuffer | src/slave-replication.cpp:18-35 | After the handshake: whoever follows a link has handled, afterwards, every message of it that had come in. |
| Replication.CaughtIsReceived | src/slave-replication.cpp:37-76 | Handling them together is handling them one by one in the step system. |
| Replication.Deliver | src/replication.cpp:377-399 | Flushing a slave's write buffer to its replica changes nothing in the world that both ends represent. |
| Replication.HandleIncoming | src/slave-replication.cpp:37-76 | When the replica has handled what came in, both ends represent the world after as many receptions. |
| Replication.Acknowledge | src/slave-replication.cpp:59-69 | When the replica's answer has left, both ends represent the world after that; the text is that of the ACK. |
| Replication.OtherStepsAreUnnoticed | src/replication.cpp:315-362 | Every other step of the world leaves the replica representing its link. |
| Replication.ReplicationManager.Register | src/replication.cpp:106-116 | A slave is registered once, with replica offset 0; the master represents the world after the registration. |
| Replication.ReplicationManager.HandlePropagate | src/replication.cpp:315-362 | With slaves and one of SET, INCR, RPUSH, LPUSH, LPOP, XADD and ZREM: the offset grows by the received bytes and the buffer of every slave by the printed command; otherwise nothing. The master represents the next world. |
| Replication.ReplicationManager.CountAcked | src/replication.cpp:134-144 | The loop counts the slaves with an offset of at least the target. |
| Replication.ReplicationManager.HandleWait | src/replication.cpp:121-170 | A count at once at offset 0 or when enough have acknowledged; otherwise GETACK to all and one more waiting client. The master represents the next world, and the reply is what that world was told. |
| Replication.ReplicationManager.CheckBlockedWaitClients | src/replication.cpp:172-216 | The erasing loop: a client goes on waiting exactly if fewer replicas than it needs have an offset at or past its target; all others are told that number once, in order. |
| Replication.ReplicationManager.HandleAck | src/replication.cpp:77-85 | Records the offset and settles the waiting clients in the same sense; when the offset is the one under way, the master represents the world after its arrival. |
| Replication.ReplicationManager.CheckAndExpire | src/replication.cpp:218-255 | The erasing loop: exactly the clients whose time is up are told the current number, in order, and the others go on waiting; the master represents the next world. |
| GeoHash.DeinterleaveUndoes | src/geohash.cpp:15-71 | Taking apart undoes interleaving for all pairs of 32-bit words. |
| GeoHash.InterleaveUndoes | src/geohash.cpp:15-71 | Interleaving undoes taking apart for all 64-bit words. |
| GeoHash.BitsLand | src/geohash.cpp:15-41 | Bit i of the first word lands at 2i, bit i of the second at 2i + 1. |
| GeoHash.EncodedBits | src/geohash.cpp:73-88 | Bit 2i of a hash is bit i of the number of the cell of the latitude, and bit 2i + 1 that of the longitude. |
| GeoHash.InterleaveIsMonotone | src/geohash.cpp:15-41 | The interleaved number grows strictly with each argument. |
| GeoHash.WordKeepsNumber | src/geohash.cpp:84-86 | Converting a number below 2^32 to a word keeps it. |
| GeoHash.CellContains | src/geohash.cpp:95-103 | The cell of a coordinate contains it, has the width of the range over 2^step, and its midpoint is within half of that. |
| GeoHash.DecodingFindsThePoint | src/geohash.cpp:73-105 | Decoding an encoded in-range point gives such a cell on both axes. |
| GeoHash.Hasher.Encode | src/geohash.cpp:73-88 | Succeeds exactly in range, with the interleaved cell numbers. |
| GeoHash.Hasher.Decode | src/geohash.cpp:90-105 | The area of the two cell numbers. |
| SortedSets.InsertKeepsOrder | src/sortedset.cpp:19-21 | Inserting a pair keeps the order and adds exactly it. |
| SortedSets.EraseKeepsOrder | src/sortedset.cpp:12-15 | Erasing a pair keeps the order and removes exactly it. |
| SortedSets.SmallerOnes | src/sortedset.cpp:46-52 | A pair stands behind exactly the smaller ones, as many as its position. |
| SortedSets.OrderIsDeterminedByPairs | src/sortedset.h:13-16 | The order is a function of the map. |
| SortedSets.RangeAtRank | src/sortedset.cpp:39-104 | range(rank(m), rank(m)) is m alone. |
| SortedSets.SortedSet.Insert | src/sortedset.cpp:7-23 | The map is updated, and map, order and counter agree. |
| SortedSets.SortedSet.Remove | src/sortedset.cpp:25-37 | The member is gone from map, order and counter. |
| SortedSets.SortedSet.Rank | src/sortedset.cpp:39-53 | The number of members with a smaller score, or with the same score and a name that is smaller in byte order; none for a missing member. |
| SortedSets.SortedSet.Size | src/sortedset.cpp:55-58 | The number of members. |
| SortedSets.SortedSet.Range | src/sortedset.cpp:69-104 | The members of the slice of the sorted order that the signed indices ask for: their scores rise, and under one score their names rise in byte order. |

## Left out

- Sockets, event loop, files, argument parsing, logging, hashing, ACL, MULTI, pub/sub, KEYS, TYPE and CONFIG: they would only add easy members.
- Allocation failure, clients that disconnect (weak pointers that expire) and inactive slave connections: allocation succeeds and clients stay alive.
- Time: a clock reading, and which clients have expired, are parameters.
- Byte masks of the listpack are written as arithmetic; ListpackCodec.TagMasks ties the tag tests to the masks. Disjoint `|` is `+`.
- Listpack buffers whose back lengths are not canonical are covered by validation and traversal, but edits are modelled on listpacks built by edits.
- ListpackStrings.AppendToExistingList: the listpack has to stay below 2^32 bytes, because the program dereferences the null result of lpInsert unchecked.
- ListCommands.DB.HandlePush: what fails an assert in the program is excluded: storing under a key of another type, and prepending to a 64-bit integer. A listpack of 2^32 bytes or more is excluded as well.
- ListCommands.DB.HandleBlpop: the first key only, which is the one that handle_blpop looks at; pops that fail the assert of lpFirst are excluded, as for LPOP.
- ListCommands.DB.HandleLrange: calls that fail an assert of lpNext or lpPrev are excluded.
- lpInsertInteger and lpAppendInteger as separate entry points: LpInsert covers the integer operand.
- Resp.ParseBulkStringSequence: does not model the wrap-around of `pos + len` when a length field is within the text's size of 2^64; stored payloads never have one.
- StreamCommands.DB.HandleXread: without BLOCK the program goes on with a missing key, so such keys are excluded. Reads of a stream that is replaced by another value are not modelled.
- RequestParser.ClientContext.Parse: partial and malformed requests are modelled as the code treats them, but the inverse is claimed for complete requests only.
- CommandParser.ParseCommand: the parsers of commands other than SET, INCR, RPUSH, LPUSH, LPOP, XADD, ZREM and REPLCONF are not part of this model; for their names it stops at the call.
- Replication.SlaveReplicationClient.ProcessCommands: it stops at a command whose parser is not part of this model, which the program would execute and count.
- ZADD, GEOADD and ACL SETUSER: their printers lose information, so there is nothing to invert.
- ReplicationModel.StreamIsHandled: the stream reaches a replica in whole requests; a request cut in two by the network is not modelled.
- Replication.Deliver: what flush hands to the socket arrives at once; what is under way in the network is part of the read buffer here.
- Handshake and RDB transfer: the protocol starts after them. A replica's database is represented by the list of executed commands; what a queued transaction or a hand-off does to it is not modelled.
- Offsets are unbounded integers; the conversions between 64-bit signed and unsigned offsets are the identity below 2^63.
- GeoHash.Hasher.Encode: real numbers stand for doubles, and the step is at most 30, as `1 << step` is an int. Distances and GEOSEARCH are left out.
- SortedSets.SortedSet: scores are real numbers, a total order without NaN or infinities; std::set and std::unordered_map are a sorted sequence and a map.
- Watching clients, unblocked descriptors and write positions, which every command updates alike.
