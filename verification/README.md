# Verified models of Quickshell's algorithms

Quickshell is a toolkit for building desktop shells with Qt. Most of it connects Qt and QML to other
things, but it also holds a number of self-contained algorithms over unbounded data. This project
models ten of them in Dafny and proves what they are for. Operations that change state are classes
and methods with the source's fields and loops; each is proved against functions on values, and the
lemmas are about those functions.

- **Detailed log** (`LogBytes`, `LogCodec`, `LogWire`, `LogStreams`, `LogRoundTrip`, `LogTruncation`,
  `RingBuf`). Writer and reader
  of the binary log keep private state that must stay in step with nothing but bytes between them:
  category tables, a window of 256 recent messages, a clock. `LogRoundTrip.StepRoundTrip` is the
  simulation step, `StreamRoundTrip` the run over whole streams, `PlainLogRoundTrip` the law in terms
  of the logged messages alone. Three limits of the format are exact conditions: which messages can be
  cut out of the stream again (`FramingExact`), which streams keep their times (`TimesExact`), and what
  happens outside (`EpochTagLosesMessage`, `FatalTimeDrifts`). A log cut anywhere yields exactly the
  messages that are whole, and `CutLog` says exactly which cuts go unnoticed.
- **List reconciliation** (`RowEvents`, `ScriptDiffs`, `DiffKeys`, `DiffInvariants`, `KeyedDiffs`,
  `SurvivingRows`, `KeyLaws`, `ScriptModels`, `ObjectModels`). Both diffs are proved to end at
  a determined list, to emit notifications that a listener can replay and that are valid for the row
  count at the moment they are emitted, and to leave what both lists share alone. With a key,
  `ScriptModel` keeps the old value of a row it moves and overwrites rows with other keys when it
  replaces a run. For unique keys both limits are exact conditions on the two lists: whether
  replacements leave every row its key (`SurvivingRows.KeysKeptExactly`), and then whether the rows
  are the new list and that shared rows are neither removed nor inserted (`SurvivorsExact`). In any
  case the rows are the new list if no item has changed whose row has to pass others
  (`UnchangedWhereCrossed`), and `EveryOrderExact` says for which lists the old order does not matter. `ObjectModel` ends at the new
  list if and only if the surviving objects already stand in the new order.
- **Stream parsers** (`SplitParsers`, `StreamReaders`). Splitting loses no byte whatever the chunks are,
  and equals the split of the whole stream if and only if no two touching delimiters end in the same
  chunk. Parsing the buffer again, as after a change of the marker, is right if and only if no
  delimiter wraps from the end of the buffer to its start. Transactions give the same answers whatever
  the arrival schedule is.
- **Chains of items** (`TransformWatchers`), **Exec lines** (`ExecStrings`), **desktop entries**
  (`DesktopEntries`), **IPC handlers** (`IpcRegistries`) and **median cut** (`ColorQuantizers`).

`dafny verify dfyconfig.toml` checks the project.

## Where the code and its documentation differ

- The comment at src/core/logging.cpp:689-690 speaks of an epoch *delta* after tag 0x1e; the writer
  puts a whole time there and the reader adds it to its last time. The model follows the code.
- The same tag goes with a varint when the delta is exactly 0xffff (lines 691 and 699). The model
  follows the code.
- The comment above `diffUpdate` (src/core/model.hpp:131) assumes one instance of each value. Even then
  a swap leaves a value twice in the list (`ObjectModels.SwapDuplicates`).
- The comment at src/io/datastream.cpp:54 has the buffer searched for a changed delimiter; the call
  there reads the start of the buffer as what follows its end, so a delimiter can be found that no one
  sent (`SplitParsers.ReparseExactly`).

## Model

| member | source | states |
|---|---|---|
| LogRoundTrip.PlainLogRoundTrip | src/core/logging.cpp:649-788 | A fresh reader returns type, category, body and whole-second time of every message of a fresh writer, with nothing left over, for every log whose clock never goes back, whose first message, unless fatal, is not stamped exactly 0xffff seconds after the epoch, whose later messages are repeats of one of the 256 before them or else neither fatal nor 0xffff seconds or more after the last, and whose numbers fit their fields (at most 65533 categories) |
| LogRoundTrip.LogRoundTrip | src/core/logging.cpp:649-788 | For every log that the format can frame, with times before the epoch and times going backwards, all payloads come back and the end is clean; times come back if and only if no stamp misleads the reader's clock |
| LogRoundTrip.StreamRoundTrip | src/core/logging.cpp:649-788 | Payload round trip from any two states in lockstep, whatever the reader's clock says: each message back in order, every byte consumed, states in lockstep again |
| LogTruncation.CutLog | src/core/logging.cpp:716-788 | A log cut after any number of bytes yields exactly the messages whose bytes are all there; the end counts as clean exactly if the cut is at a message's end or inside the number the next message begins with |
| LogTruncation.CutMessageNoticed | src/core/logging.cpp:835-842 | No message is read from a part of its bytes, and the failing read consumes something exactly if the leading number is whole |
| LogTruncation.ReadExtends | src/core/logging.cpp:716-788 | A message that could be read from what there was is read alike, from the same bytes, when there is more |
| LogTruncation.SomeAreWhole | src/core/logging.cpp:649-714 | Every cut has a number of whole messages before it |
| LogTruncation.WrittenIsCut | src/core/logging.cpp:575-580 | What messages leave on a device that runs out of room is their log, cut where the room ends |
| LogRoundTrip.StepRoundTrip | src/core/logging.cpp:649-788 | One message in lockstep: decoded from exactly its own bytes whatever follows, windows and category tables agree again, and the time the reader gets |
| LogRoundTrip.FramingExact | src/core/logging.cpp:685-705 | A message can be cut out of the stream again if and only if it is a repeat, is fatal, or has a delta that is not 0xffff and does not wrap to a tag value when negative |
| LogRoundTrip.TimesExact | src/core/logging.cpp:677-712 | Among streams that decode, exactly those keep their whole-second times in which a whole time is only sent while the clock is at the epoch, the clock otherwise never goes back to another second, and times before the epoch are whole seconds or in the last one's second |
| LogRoundTrip.TimeExact | src/core/logging.cpp:743-777 | The same for one message: what the reader adds is right if and only if the stamp does not mislead it |
| LogRoundTrip.StampRoundTrip | src/core/logging.cpp:681-705 | Type and seconds survive the packed stamp byte and whatever follows it unless the tag is false, for all five types and all three lengths of time field |
| LogRoundTrip.RecentRoundTrip | src/core/logging.cpp:660-670 | A back-reference reads as a copy of the message at that index of the reader's window, in the short and the long form, with the delta cut to its field |
| LogRoundTrip.RegistrationRead | src/core/logging.cpp:848-881 | Reading a registration is reading on with the category and its four filter bits at the end of the table |
| LogRoundTrip.FreshRoundTrip | src/core/logging.cpp:673-707 | A message in full reads as that message with the reader's own id of its category |
| LogRoundTrip.AnnouncedLockstep | src/core/logging.cpp:844-865 | A registration keeps both tables equal, with each category once, and gives the new category the next implicit id |
| LogRoundTrip.DeliverLockstep | src/core/logging.cpp:786-787 | Emplacing the same message on both sides keeps both windows equal at every index, and every stored category id keeps naming its message's category |
| LogRoundTrip.PlainFits | src/core/logging.cpp:649-714 | A log that meets the plain conditions message by message never leaves what the format can frame nor misleads the clock, whatever the window has dropped |
| LogRoundTrip.TracksOn | src/core/logging.cpp:652-712 | What the writer knows after each message: the last 256 messages newest first, the last whole second, each category once |
| LogRoundTrip.FalseTag | src/core/logging.cpp:688-705 | A delta with a false tag makes the reader take bytes of the body for the time |
| LogRoundTrip.EpochTagLosesMessage | src/core/logging.cpp:691-703 | A concrete first message with delta 0xffff does not come back |
| LogRoundTrip.FatalTimeDrifts | src/core/logging.cpp:681-683 | A concrete later fatal message comes back with the last time added to its own |
| LogBytes.VarIntRoundTrip | src/core/logging.cpp:796-828 | Every 32-bit number is read back from its one, three or seven bytes, leaving what follows |
| LogBytes.VarIntIsShortest | src/core/logging.cpp:796-828 | No number is ever read from fewer bytes than the writer spends on it |
| LogBytes.StringRoundTrip | src/core/logging.cpp:830-842 | Every string shorter than 4 GiB is read back, leaving what follows |
| LogBytes.LittleEndianRoundTrip | src/core/logging.cpp:588-601 | Every number, negative ones included, is read back from a fixed-width field up to the field's width |
| LogBytes.LittleEndianAt | src/core/logging.cpp:588-601 | Byte k of a field is the number's byte of weight 256^k: the low one comes first |
| LogWire.NumberBytes | src/core/logging.cpp:796-807 | The bytes of numbers on both sides of each change of form |
| LogWire.TypeBytes | src/core/logging.cpp:681-697 | The bytes of a stamp for each of the five types |
| LogWire.DeltaBytes | src/core/logging.cpp:687-705 | The bytes of a stamp for a short delta, a longer one and one that makes it a whole time |
| LogWire.RecentBytes | src/core/logging.cpp:663-670 | The bytes of back-references on both sides of the short form's limits |
| LogWire.FilterBits | src/core/logging.cpp:855-862 | Each filter flag has its bit, and no other bit is set |
| LogWire.FirstMessageBytes | src/core/logging.cpp:649-714 | All bytes of a first message: registration, id, stamp, length and body |
| LogWire.UnknownTypes | src/core/logging.cpp:561-570 | Type codes that stand for nothing read as information |
| LogWire.RecentOutOfWindow | src/core/logging.cpp:731-741 | A reference past the window fails with its bytes consumed, in both forms |
| LogWire.UnknownCategory | src/core/logging.cpp:747-783 | A category that was never registered reads as an empty one |
| LogCodec.FilterRoundTrip | src/core/logging.cpp:855-877 | The four filter flags survive their byte |
| LogStreams.EncodedLogWriter.constructor | src/core/logging_p.hpp:82-88 | A new writer has an empty window of 256, no category, ids from 3 and the epoch as last time |
| LogStreams.EncodedLogWriter.Write | src/core/logging.cpp:649-714 | Appends the message's encoding to the device, as far as there is room, and succeeds exactly if there is room for all of it; window, categories and clock move on together either way; without a device nothing changes |
| LogStreams.EncodedLogWriter.GetOrCreateCategory | src/core/logging.cpp:844-865 | The id of a known category, or the next one with its registration written, the hash table numbering the registered categories in order |
| LogStreams.CategoryStep | src/core/logging.cpp:844-865 | A known category has the id it was registered with; another one takes the next id and the numbering in order of registration goes on |
| LogStreams.EncodedLogWriter.WriteStamp | src/core/logging.cpp:677-705 | The buffer grows by the message's type and time field, for fatal messages, short, long and full deltas and deltas below zero |
| LogStreams.EncodedLogWriter.WriteRecent | src/core/logging.cpp:660-670 | The buffer grows by a back-reference, short when index and delta are below 16 |
| LogStreams.EncodedLogWriter.WriteFresh | src/core/logging.cpp:673-707 | The buffer grows by registration, if due, category id, stamp and body in this order |
| LogStreams.EncodedLogWriter.WriteHeader | src/core/logging.cpp:637-640 | The version byte reaches the device if there is room, and the codec's state is untouched |
| LogStreams.WriteBuffer.WriteVarInt | src/core/logging.cpp:796-807 | The buffer grows by the number's field |
| LogStreams.WriteBuffer.WriteString | src/core/logging.cpp:830-833 | The buffer grows by the length, cut to 32 bits, and the bytes |
| LogStreams.WriteBuffer.Flush | src/core/logging.cpp:575-580 | The device gets as much of the buffer as it has room for, a short write fails, and the buffer is empty either way |
| LogStreams.EncodedLogReader.Read | src/core/logging.cpp:716-788 | Result, consumed bytes and new state of a read on any input, malformed input included, with any number of registrations before the message |
| LogStreams.EncodedLogReader.RegisterCategory | src/core/logging.cpp:867-881 | The table grows by the category read, or not at all when input ends first |
| LogStreams.EncodedLogReader.ReadCopy | src/core/logging.cpp:731-744 | The copy, its time and the clock, or why the reference fails: input ends or the index is not below the window's size |
| LogStreams.EncodedLogReader.ReadTypeAndTime | src/core/logging.cpp:750-775 | Type and seconds from any stamp, bytes the writer never writes included |
| LogStreams.EncodedLogReader.ReadMessage | src/core/logging.cpp:747-783 | The message with its category's name, or a failure that may already have moved the clock |
| LogStreams.EncodedLogReader.ReadHeader | src/core/logging.cpp:642-647 | Accepts exactly version 2 and consumes one byte |
| LogStreams.EncodedLogReader.ContinueReading | src/core/logging.cpp:905-955 | Reads every message there is and reports an error exactly when the read that failed consumed bytes |
| LogStreams.DeviceReader.ReadVarInt | src/core/logging.cpp:809-828 | What is read, and how much is consumed, for every prefix a peek can return |
| LogStreams.DeviceReader.ReadString | src/core/logging.cpp:835-842 | The string, or a failure with the length, and what there is of the string, consumed |
| RingBuf.RingBuffer.Emplace | src/core/ringbuf.hpp:43-57 | The new item becomes the newest of the window, the oldest goes when the ring is full; a slot is only constructed in when raw and only destroyed when live |
| RingBuf.RingBuffer.Clear | src/core/ringbuf.hpp:59-71 | Every live item is destroyed exactly once and every slot is raw |
| RingBuf.RingBuffer.At | src/core/ringbuf.hpp:74-78 | The i-th most recent item |
| RingBuf.RunIsNewestPrefix | src/core/ringbuf.hpp:43-71 | After any run of emplaces and clears the window is the newest items pushed since the last clear, as many as fit |
| RingBuf.EmplacedView | src/core/ringbuf.hpp:43-57 | Writing the slot after the head and moving the head pushes onto the window, before and after the ring wraps |
| RingBuf.HashBuffer.IndexOf | src/core/ringbuf.hpp:127-139 | The same index as a plain newest-first search by equality, for every hash that respects equality |
| RingBuf.HashBuffer.Emplace | src/core/ringbuf.hpp:145-155 | The value is pushed, and its entry carries its hash although it is constructed with zero |
| RingBuf.HashBuffer.At | src/core/ringbuf.hpp:159-161 | The i-th most recent value without its hash |
| ScriptModels.ScriptModel.UpdateValuesUnique | src/core/scriptmodel.cpp:14-154 | Terminates with the new list up to the key; exactly the new list if the key is empty, if items of the two lists with one key are equal, or, with unique old keys, if no item has changed whose row has to pass others; notifications replay to the result; for unique keys it says when replacements leave every row its key and that then keys of removed rows are old minus new and those of inserted rows new minus old; rows and notifications are determined by both lists and the key |
| DiffInvariants.DiffReconciles | src/core/scriptmodel.cpp:42-154 | The same about the diff as a function, for any key, duplicates included; and the rows are the new list if and only if every moved row already held its new value |
| KeyedDiffs.UnchangedWhereCrossed | src/core/scriptmodel.cpp:64-107 | With unique old keys the rows are the new list if no item has changed whose row stands after the row of an item that comes later; each moved row is such a row, so nothing moves when the shared keys stand in one order |
| KeyedDiffs.EveryOrderExact | src/core/scriptmodel.cpp:64-150 | With unique keys, every order of the old rows ends at exactly the new list if and only if, of the items whose keys the old list has, none but the last has changed |
| KeyedDiffs.WaitingRowIsMoved | src/core/scriptmodel.cpp:84-107 | A row behind one that a later item waits for is moved up and keeps its old value to the end |
| KeyedDiffs.MovedIsCrossed | src/core/scriptmodel.cpp:69-90 | Each row of a moved run stands after the row of an item that comes later |
| SurvivingRows.KeysKeptExactly | src/core/scriptmodel.cpp:134-143 | With unique keys, every notification of changed data keeps the key of each row it names if and only if, for each changed item whose row need not pass others, the next row that is not settled by then is the next item's, or one of them does not exist |
| SurvivingRows.SurvivorsExact | src/core/scriptmodel.cpp:42-154 | Under that condition keys of removed rows are exactly old minus new and those of inserted rows new minus old, and the rows are the new list if and only if no item has changed whose row has to pass others |
| SurvivingRows.RunSurvives | src/core/scriptmodel.cpp:134-143 | A run of replacements keeps all keys exactly if the condition holds at each of its items |
| SurvivingRows.NextRow | src/core/scriptmodel.cpp:137-143 | The row a run of replacements comes to next is the first later one whose key is not settled |
| SurvivingRows.FaithfulSurvives | src/core/scriptmodel.cpp:134-150 | Where no item with a matching key has changed, the condition holds |
| KeyLaws.DiffWithoutProperty | src/core/scriptmodel.cpp:22-41 | Where no value has the key's property the diff is the diff without a key |
| KeyLaws.DiffByProperty | src/core/scriptmodel.cpp:22-154 | Where all values have it the rows end up with the new list's properties; and, for unique ones and under the condition on replacements, removed properties are old minus new, inserted ones new minus old, and the rows are the new list exactly if no item has changed whose row has to pass others |
| KeyLaws.MatchCases | src/core/scriptmodel.cpp:22-37 | When two values stand for the same row, by whether each has the property |
| DiffKeys.KeysReplay | src/core/scriptmodel.cpp:28-41 | A listener that only sees keys follows along: the notifications, reduced to keys, replay to the rows' keys |
| DiffInvariants.DiffKeeps | src/core/scriptmodel.cpp:55-150 | From any state of the loop the rest of the diff keeps the settled rows, the replayability and the conservation of keys |
| ScriptDiffs.NextStep | src/core/scriptmodel.cpp:42-150 | Until it is done the diff takes one of five steps, and when it takes each, said with the keys of all remaining rows and items |
| ScriptModels.ScriptModel.ResolveMismatch | src/core/scriptmodel.cpp:64-133 | Which run is removed, moved up or inserted at a row whose key is not the new list's, with its notification |
| ScriptModels.ScriptModel.ScanRemoved | src/core/scriptmodel.cpp:72-76 | Where the run of rows that the rest of the new list lacks ends |
| ScriptModels.ScriptModel.ScanMoved | src/core/scriptmodel.cpp:85-90 | Where the run of matching keys ends, in both lists |
| ScriptModels.ScriptModel.ScanInserted | src/core/scriptmodel.cpp:109-115 | Where the run of new values that no row matches ends |
| ScriptModels.ScriptModel.MoveRows | src/core/scriptmodel.cpp:99-104 | Moving rows one at a time moves the whole run in front of the rows before it |
| ScriptModels.ScriptModel.ReplaceRows | src/core/scriptmodel.cpp:134-143 | Takes over new values exactly while they differ from the rows |
| ScriptDiffs.MatchedKeys | src/core/scriptmodel.cpp:86-90 | A moved run matches the new list key by key and cannot be longer |
| ScriptDiffs.RemovedRun | src/core/scriptmodel.cpp:70-76 | A removed run consists of rows the rest of the new list lacks and ends at the first it does not; inserted runs likewise |
| DiffInvariants.ConservedExactly | src/core/scriptmodel.cpp:64-133 | With unique values, nothing common to both lists is removed or inserted |
| KeyedDiffs.MovedRowIsStale | src/core/scriptmodel.cpp:99-107 | With a key, a concrete moved row keeps its old value |
| KeyedDiffs.KeptRowIsFresh | src/core/scriptmodel.cpp:134-149 | The same row left in place takes over the new value |
| SurvivingRows.ReplaceRunLosesRow | src/core/scriptmodel.cpp:138-143 | With a key, a concrete run of replacements overwrites a row that both lists share and inserts it anew |
| ScriptModels.ScriptModel.SetValues | src/core/scriptmodel.cpp:159-163 | The early return makes no difference: rows and notifications are those of the diff |
| ScriptModels.ScriptModel.SetObjectProp | src/core/scriptmodel.cpp:165-170 | A new key alone changes no row and notifies of none |
| ObjectModels.ObjectModel.DiffUpdate | src/core/model.hpp:132-146 | Ends at the new list followed by the survivors the walk did not meet; notifications replay; removed are exactly the objects the new list lacks, inserted exactly what survivors do not supply |
| ObjectModels.ObjectModel.RemoveMissing | src/core/model.hpp:133-136 | The survivors are left, in their old order |
| ObjectModels.DiffExact | src/core/model.hpp:132-146 | The result is the new list if and only if the survivors in their old order are a subsequence of it |
| ObjectModels.SurvivorsAre | src/core/model.hpp:133-136 | Survivors are the old objects that the new list has, each as often as before |
| ObjectModels.SurvivorsInOrder | src/core/model.hpp:133-136 | They are in the old order |
| ObjectModels.LeftoverIs | src/core/model.hpp:138-145 | What follows the new list is the end of the survivors, after as many of them as stand in the new order |
| ObjectModels.SubsequenceFound | src/core/model.hpp:138-145 | Items in the new order have rising places in it |
| ObjectModels.FoundIsSubsequence | src/core/model.hpp:138-145 | Items with rising places are in the new order |
| ObjectModels.LeftoverEmpty | src/core/model.hpp:138-145 | The greedy walk meets all survivors whenever there is any way to |
| ObjectModels.SwapDuplicates | src/core/model.hpp:131-146 | Two swapped objects: one is listed twice afterwards |
| ObjectModels.ObjectModel.InsertObject | src/core/model.hpp:84-95 | The list changes as its notification says, -1 meaning the end |
| ObjectModels.ObjectModel.RemoveAt | src/core/model.hpp:118-129 | The list changes as its notification says |
| RowEvents.ReplaysOneMore | src/core/scriptmodel.cpp:58-60 | A notification valid for the rows a listener has leads it to the rows the model has |
| SplitParsers.SplitParser.ParseBytes | src/io/datastream.cpp:43-99 | Emits the records, and carries over the buffer, of cutting buffer and chunk together from the first place a delimiter can end in the chunk; a changed marker has the buffer parsed again first; both arguments may be the same array; with an empty marker everything is passed on |
| SplitParsers.SplitParser.ParsePass | src/io/datastream.cpp:60-98 | One pass over the positions where a delimiter can end in what comes in, with distinct arrays or the same one |
| SplitParsers.ReparseExactly | src/io/datastream.cpp:54-98 | Parsing the buffer as what comes in splits it like one chunk if and only if no delimiter wraps from its end to its start |
| SplitParsers.WrappedIs | src/io/datastream.cpp:66-98 | If one wraps it gives an empty record, and what follows its end is split like a chunk |
| SplitParsers.WrappedScan | src/io/datastream.cpp:66-86 | If one does, records, markers and buffer hold more bytes than there were |
| SplitParsers.SplitParser.MarkerAt | src/io/datastream.cpp:68-74 | Whether the marker stands at a place that may lie in the buffer, straddle both, or lie in the chunk |
| SplitParsers.SplitParser.Slice | src/io/datastream.cpp:77-82 | The record is the stretch of buffer and chunk between two places |
| SplitParsers.SplitParser.StreamEnded | src/io/datastream.cpp:101-103 | A non-empty buffer becomes the last record |
| SplitParsers.SplitParser.SetSplitMarker | src/io/datastream.cpp:107-113 | A different marker is remembered as changed |
| SplitParsers.ChunkingIrrelevantExactly | src/io/datastream.cpp:60-98 | Every chunking of a stream gives the leftmost split of the whole if and only if no delimiter directly follows another |
| SplitParsers.ChunkingExactly | src/io/datastream.cpp:60-98 | A chunked stream is split like the whole if and only if no two touching delimiters of the whole split end in the same chunk |
| SplitParsers.RightBefore | src/io/datastream.cpp:63-98 | A split that has gone wrong in an earlier chunk never comes right again |
| SplitParsers.FeedIsLeftmost | src/io/datastream.cpp:60-98 | However a stream without touching delimiters is chunked, records and final buffer are those of the whole stream's split, markers straddling chunks included |
| SplitParsers.FeedLossless | src/io/datastream.cpp:66-98 | For every stream, chunking and marker, records with their markers and the buffer concatenate to the bytes received |
| SplitParsers.CallsAndSplits | src/io/datastream.cpp:60-98 | The whole split, and the records and buffer of a call, are each the only way to cut the bytes at markers such that none is left in a record or in the rest; a call leaves those that end in the buffer or directly follow another |
| SplitParsers.CutIsSplit | src/io/datastream.cpp:66-98 | Each record ends at the first marker that is looked for, and the rest holds none |
| SplitParsers.SplitUnique | src/io/datastream.cpp:66-98 | There is no other such split |
| SplitParsers.LeftmostResumes | src/io/datastream.cpp:63-67 | A split can stop at any byte and resume from the unfinished rest |
| SplitParsers.GapHarmless | src/io/datastream.cpp:67-84 | Passing over the place after a delimiter changes nothing where no delimiters touch |
| SplitParsers.GapSeparates | src/io/datastream.cpp:67-84 | One call never cuts an empty record directly after a delimiter |
| SplitParsers.TouchingWhole | src/io/datastream.cpp:60-98 | What a whole split of two touching delimiters is |
| SplitParsers.TouchingInOneChunk | src/io/datastream.cpp:67-84 | In one chunk the second of two touching delimiters stays in the buffer |
| StreamReaders.Transact | src/core/streamreader.cpp:13-93 | Any transaction on any delivery schedule: committed, each answer is what was asked for (so many bytes, or those up to and including the first terminator), they are the answers of the whole stream, and joined they are exactly what is removed from its front; failed, the stream is as it was, and on a device that never holds everything back no such answers had arrived |
| StreamReaders.StreamReader.ReadBytes | src/core/streamreader.cpp:34-49 | As many bytes as asked for, those the whole stream has there; or nothing moved, the transaction failed and the buffer too short |
| StreamReaders.StreamReader.ReadUntil | src/core/streamreader.cpp:51-71 | The bytes of the whole stream up to and including the first terminator; or nothing moved, the transaction failed and no terminator in the buffer |
| StreamReaders.StreamReader.Search | src/core/streamreader.cpp:54-65 | Searching only what each fill adds finds the first terminator of the whole buffer |
| StreamReaders.StreamReader.Fill | src/core/streamreader.cpp:18-32 | Moves bytes from the device to the buffer and loses none, short and failing device reads included |
| StreamReaders.StreamReader.StartTransaction | src/core/streamreader.cpp:13-16 | Reading starts over at the beginning of the buffer |
| StreamReaders.StreamReader.CommitTransaction | src/core/streamreader.cpp:84-93 | Removes what was read, or nothing after a failure |
| StreamReaders.ArrivalIrrelevant | src/core/streamreader.cpp:34-71 | Answers found in what has arrived are the answers of the whole stream |
| StreamReaders.AnswersArrived | src/core/streamreader.cpp:34-71 | Answers of the whole stream that end within what has arrived are found there |
| StreamReaders.AnswersExactly | src/core/streamreader.cpp:34-71 | Some data answer the requests from the front of a stream exactly if each is what its request asks for and joined they begin the stream |
| StreamReaders.AnswersUnique | src/core/streamreader.cpp:34-71 | There is only one way to answer requests from the front of a stream |
| StreamReaders.AnswerEndExactly | src/core/streamreader.cpp:34-71 | A request's answer is the one stretch from the cursor on that is what it asks for |
| TransformWatchers.TransformWatcher.ResolveChains | src/core/transformwatcher.cpp:12-61 | For every forest and every shortcut: when it warns, when nothing is stored, and which chains are stored. A shortcut that is an ancestor of both items or of neither makes no difference |
| TransformWatchers.ResolvedIsLowest | src/core/transformwatcher.cpp:21-61 | The chains lead from one item up to and including the lowest common ancestor and from the other to just below it, or to both roots if there is none |
| TransformWatchers.LowestUnique | src/core/transformwatcher.cpp:34-44 | There is only one lowest common ancestor |
| TransformWatchers.FirstSharedIsLowest | src/core/transformwatcher.cpp:34-44 | The first item of one path that is also on the other is the lowest common ancestor, and without one there is no common ancestor |
| TransformWatchers.ShortcutAboveBOnly | src/core/transformwatcher.cpp:30-48 | A shortcut above the second item only gives the right chains if and only if it is that item's root, or its parent is a root above both items |
| TransformWatchers.TransformWatcher.WalkFromB | src/core/transformwatcher.cpp:21-32 | How far the first walk goes and whether it ended at the other item |
| TransformWatchers.TransformWatcher.WalkFromA | src/core/transformwatcher.cpp:34-55 | What the second walk and the cut leave, and when it warns |
| ExecStrings.ParseExecString | src/core/desktopentry.cpp:268-336 | The loop computes the tokenizer's fold on every input |
| ExecStrings.ExecRoundTrip | src/core/desktopentry.cpp:268-336 | Every command line of words made of quoted pieces with either quote, plain text with doubled percent signs, characters behind a backslash and field codes is read as its words with text, in order |
| ExecStrings.ExecRoundTripExact | src/core/desktopentry.cpp:268-336 | Arguments quoted as section 7, "The Exec key", of the Desktop Entry Specification asks (single quotes escaped as well, dollar signs and backticks escaped or not) and joined by spaces come back if and only if none is empty |
| ExecStrings.QuotedChar | src/core/desktopentry.cpp:278-306 | Each character inside quotes arrives as itself: the backslash from four, quotes from their double escape, space, line feed, tab and return from their letters, others as they are or behind one, two or three backslashes |
| ExecStrings.PieceRead | src/core/desktopentry.cpp:276-327 | Each kind of piece adds its text to the current argument: quotes and their contents, a character behind a backslash, a percent sign from two, nothing from a field code |
| ExecStrings.BareText | src/core/desktopentry.cpp:307-327 | Plain text is taken as it is, with one percent sign for two |
| ExecStrings.BrokenLine | src/core/desktopentry.cpp:330-333 | A line that breaks off in quotes, after a backslash or after a percent sign still gives its words, the last one with what there is of it |
| ExecStrings.WordsRead | src/core/desktopentry.cpp:275-328 | The state between words: all earlier words with text pushed, the last one pending |
| DesktopEntries.DesktopEntryManager.OnScanCompleted | src/core/desktopentry.cpp:514-588 | After any scan every old or created entry is in the index or scheduled for deletion once, never both; each id has its last valid visible record that no hidden one follows; the lowercase table is determined; an id mentioned once keeps its entry |
| DesktopEntries.DesktopEntryManager.Mask | src/core/desktopentry.cpp:521-532 | A hidden record takes its id out everywhere and schedules the entries it had |
| DesktopEntries.DesktopEntryManager.Claim | src/core/desktopentry.cpp:534-543 | The unclaimed old entry of the id is taken over and updated, otherwise a new one is created |
| DesktopEntries.DesktopEntryManager.Place | src/core/desktopentry.cpp:555-574 | The entry answers for its id and lowercased id, and the one it replaces is scheduled for deletion |
| DesktopEntries.DesktopEntryManager.ById | src/core/desktopentry.cpp:437-445 | The entry of the exact id, otherwise the one the lowercase table has for the id; whatever is found is live and has the id asked for, case aside |
| DesktopEntries.FinalIsLast | src/core/desktopentry.cpp:518-575 | The record an id, or a lowercased id, ends up with, said about positions in the scan |
| DesktopEntries.MentionedOnce | src/core/desktopentry.cpp:518-543 | An id counts as mentioned once exactly if one record has it and no other |
| DesktopEntries.LowerIsFinal | src/core/desktopentry.cpp:565-574 | The record that answers for a lowercased id is the final record of its own id |
| DesktopEntries.OtherCaseExactly | src/core/desktopentry.cpp:519-574 | An id's own record answers for its lowercased form if and only if no later record of any case with that form hides or replaces it |
| DesktopEntries.HiddenCaseCutsOff | src/core/desktopentry.cpp:521-531 | A hidden record of another case leaves a listed id that is found under no other case |
| IpcRegistries.IpcHandlerRegistry.RegisterHandler | src/io/ipchandler.cpp:359-374 | The handler joins the end of its target's list, other lists stay, and the tables agree with the handlers' states |
| IpcRegistries.IpcHandlerRegistry.DeregisterHandler | src/io/ipchandler.cpp:376-389 | The handler leaves its target's list, other lists stay, and the tables agree with the handlers' states |
| IpcRegistries.IpcHandlerRegistry.FindHandler | src/io/ipchandler.cpp:470-472 | The handler registered longest for a target; none if and only if no handler is registered for it |
| IpcRegistries.IpcHandlerRegistry.ListedExactly | src/io/ipchandler.cpp:313-337 | A handler is listed under a target exactly if it is complete, enabled and has that target, and the target is not empty |
| IpcRegistries.IpcHandlerRegistry.NoneUnderEmptyTarget | src/io/ipchandler.cpp:333-336 | No handler is listed under the empty target or answers for it |
| IpcRegistries.IpcHandler.UpdateRegistration | src/io/ipchandler.cpp:313-337 | Afterwards a completed handler's registration mirrors its requested state, and it has moved to the end of the list it belongs in |
| IpcRegistries.IpcHandler.SetEnabled | src/io/ipchandler.cpp:341-347 | Keeps the registry's invariant and moves the handler between lists only on a change |
| IpcRegistries.IpcHandler.SetTarget | src/io/ipchandler.cpp:351-357 | Keeps the registry's invariant and moves the handler between lists only on a change |
| IpcRegistries.IpcHandler.OnPostReload | src/io/ipchandler.cpp:286-287 | A handler registers for the first time when it is complete |
| IpcRegistries.IpcHandler.Destroy | src/io/ipchandler.cpp:231-236 | No table mentions a destroyed handler and the others keep their order |
| IpcRegistries.ActiveAfterRemoval | src/io/ipchandler.cpp:376-386 | Failover: the active handler of every target is the first of its list again |
| IpcRegistries.ActiveAfterAppend | src/io/ipchandler.cpp:364-370 | A handler becomes active exactly if it is the only one for its target |
| IpcRegistries.Registered | src/io/ipchandler.cpp:359-374 | After a registration every list holds exactly the handlers registered for its target, longest-registered first |
| IpcRegistries.Deregistered | src/io/ipchandler.cpp:376-389 | The same after a deregistration |
| ColorQuantizers.Quantization | src/core/colorquantizer.cpp:75-123 | The colours are the rounded averages of buckets made by cutting lists, ordered along their widest channel, in the middle; for n pixels and d levels there are min(n, 2^d) of them, the buckets hold exactly the pixels and each has n / 2^d of them rounded down or up; the argument is left ordered unless it is a leaf |
| ColorQuantizers.MedianCutCounts | src/core/colorquantizer.cpp:82-122 | Every way of cutting ordered lists in the middle has these counts, whichever order the sort leaves ties in |
| ColorQuantizers.EvenSizeIs | src/core/colorquantizer.cpp:113-116 | A bucket's size is the number of pixels over the number of parts, rounded down or, if it does not divide, up |
| ColorQuantizers.OneLevel | src/core/colorquantizer.cpp:82-120 | A list is cut exactly while the depth is below the limit, and its halves once less |
| ColorQuantizers.FindBiggestColorRange | src/core/colorquantizer.cpp:125-157 | The channel that varies most, red before green before blue |
| ColorQuantizers.Average | src/core/colorquantizer.cpp:85-103 | The rounded average of each channel |
| ColorQuantizers.AverageRounds | src/core/colorquantizer.cpp:97-101 | An average is the whole number nearest to the sum over the number of pixels, the upper one if two are |
| ColorQuantizers.AverageOfAnyOrder | src/core/colorquantizer.cpp:85-103 | The order of a bucket's pixels does not matter |
| ColorQuantizers.TotalOfOne | src/core/colorquantizer.cpp:92-94 | The sum of one pixel is its value |
| ColorQuantizers.TotalOfParts | src/core/colorquantizer.cpp:89-95 | Sums add up over parts |
| ColorQuantizers.TotalOfAnyOrder | src/core/colorquantizer.cpp:89-95 | A sum depends only on which pixels there are and how often |
| ColorQuantizers.TotalsFit | src/core/colorquantizer.cpp:85-95 | The sums fit 32-bit integers for up to 8421504 pixels, and for white pixels not for more |
| ColorQuantizers.ColorInBox | src/core/colorquantizer.cpp:89-101 | An average lies between the least and the greatest value of each channel in its bucket |
| ColorQuantizers.AverageInBox | src/core/colorquantizer.cpp:97-101 | Rounding does not take an average out of the range of its bucket |
| ColorQuantizers.SortInPlace | src/core/colorquantizer.cpp:107-111 | The same colours in ascending order of one channel |
| ColorQuantizers.Extremes | src/core/colorquantizer.cpp:128-143 | Least and greatest values are attained and nothing lies outside them |

## Left out

- LogRoundTrip.PlainLogRoundTrip: text is bytes, a time is a number of milliseconds from the epoch below 2^63 and QDateTime's own range, time zones and parsing are not modelled; `toSecsSinceEpoch` and `secsTo` are taken to truncate toward zero.
- LogRoundTrip.FramingExact: lengths of 2^32 and more, deltas of repeats of 2^32 and more and a 65534th category do not fit their fields; `Encode` cuts them as the code does, but nothing is proved about reading them back.
- LogStreams.EncodedLogWriter.Write: the category's filter is an argument in place of the log manager's table; a device error is a write of fewer bytes than there were.
- LogStreams.EncodedLogReader.ContinueReading: filter rules, the tail ring and formatting are display and are left out.
- LogStreams.DeviceReader.ReadBytes: a device that returns fewer bytes than it holds is not modelled for the log; a length of 2^31 and more, which Qt refuses, reads like any other.
- RingBuf.RingBuffer.constructor: memory is an array of slots; alignment, move construction and move assignment of rings (src/core/ringbuf.hpp:28-39, 119-124) are left out.
- ScriptModels.ScriptModel.UpdateValuesUnique: `QVariant` equality is equality of values, and the key of a map without the key property is the map. For lists with repeated keys, and where replacements take a row's key, when the result is exactly the new list is said by the moves that were made (`MovesExact`); for unique keys the conditions are on the lists. Listeners that change the model during a diff are left out.
- ObjectModels.ObjectModel.DiffUpdate: listeners that change the list during the diff are left out; so are sorted insertion and `removeObject`.
- SplitParsers.SplitParser.ParseBytes: records are bytes, not decoded text, and listeners that change the parser during a call are left out.
- StreamReaders.StreamReader.ReadBytes: negative counts, `reset`, `setDevice` and the fixed-width reads on top of `readBytes` are left out.
- TransformWatchers.TransformWatcher.ResolveChains: items are numbers and parents a finite map of finite height; the windows of line 63-69, transforms, and the re-resolving on signals are left out.
- ExecStrings.ExecRoundTrip: a field code is dropped as in the code, not expanded; the warning about an illegal escape is left out.
- DesktopEntries.DesktopEntryManager.OnScanCompleted: a record is its id, name and hidden flag, and lower-casing is any function; the applications list, whose order is a hash table's, signals, queued scans, parsing of files and heuristic lookup are left out.
- IpcRegistries.IpcHandler.UpdateRegistration: one live generation, so the failing lookup of src/io/ipchandler.cpp:316-324 does not occur; functions, properties, signals and remote calls are left out.
- IpcRegistries.IpcHandler.Destroy: the same; a handler destroyed without a generation stays listed in the code.
- IpcRegistries.IpcHandlerRegistry.Join: a ghost step, the moment a handler comes into being.
- ColorQuantizers.Quantization: averages are exact quotients rounded half up in place of doubles, sums do not overflow (`TotalsFit`), and cancellation and image loading are left out.
- ColorQuantizers.Average: sums are unbounded; `TotalsFit` says how many pixels 32 bits suffice for.
- ColorQuantizers.SortInPlace: stands for the library's sort; only that the result is ordered and holds the same colours is used.
- Files, sockets, threads and locks of the logger, windows, compositor protocols, services, the QML engine's generations and reloading: input, output or wrappers over libraries.
- `base36Encode`, stack lists, easing curves and margin bindings would only add easy members.
