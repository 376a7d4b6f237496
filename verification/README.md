# A verified model of NetPerfMeter

NetPerfMeter measures the performance of transport protocols.  An active node sets up flows to a
passive node over a control connection, both nodes exchange frames of data, and the passive node
returns its measurement files.  A companion program, CreateSummary, collects scalar results and
writes them into tables.  This project models the parts of that system in which most of its logic
lies, and proves what they promise:

- **The intrusive red-black tree** (`RedBlack*.dfy`).  The nodes are heap objects with parent
  pointers, colors and value sums; insertion, removal, rotation and all lookups are the original's
  pointer code.  Ghost zippers (a subtree and its surroundings) describe where the code stands;
  `Linked`, `LinkedCtx` and the sum predicates tie them to the fields of the nodes.  Every operation
  is proved against the sequence of entries in tree order, and every operation that changes the tree
  restores global key order, parent links, colors, black heights, value sums and the element count.
- **The summary store** (`ScalarNames.dfy`, `ScalarColumns.dfy`, `ScalarTable.dfy`,
  `ScalarStore.dfy`): the client of the tree, a keyed multi-value store; the names under which
  scalars are collected, and the columns that their values belong to; and the ordered dump into one
  file for each scalar name.
- **The data path** (`MessageFraming.dfy`, `MessageReader.dfy`, `DataMessage.dfy`, `Transfer.dfy`,
  `FrameStream.dfy`, `Defragmenter.dfy`, `GapCounting.dfy`, `LossAccounting.dfy`,
  `ByteAccounting.dfy`, `DataPath.dfy`): splitting frames into messages, reassembling messages from
  a byte stream cut into arbitrary chunks, collecting fragments and counting lost packets, frames
  and bytes; and the composition of the three: over a stream that takes every message as a whole, no
  packet and no frame is reported lost, however it is read and purged (`StreamIsLossless`).
- **The control protocol** (`FileTransfer.dfy`, `PassiveNode.dfy`, `ControlSession.dfy`): both sides
  of a session as step machines over two FIFO channels and data connections that may lose,
  duplicate, delay and reorder IDENTIFY messages.
- **Line reading and interval statistics** (`InputFile.dfy`, `IntervalStatistics.dfy`).

What the code does differs from what one would expect in six places; each is stated exactly:

- The counters of lost packets and frames are right if and only if no message was delivered for the
  first time after its number had been passed (`LossIsExactUnlessLate`, with an example in
  `LateExample`).  Reordering within the timeout does no harm (`ReorderingIsHarmless`).
- All messages of a frame carry the same byte offset (`SentIsOffset`), so that the counter of lost
  bytes grows even if nothing is lost: then it is zero if and only if every frame but the last one
  fits a message (`DataPath.LosslessByteLoss`, with an example in `ByteLossExample`).  What it reports
  after any run is said by `LostBytesAreUncounted`.
- A short send counts as progress, but the stream then no longer reads back as the messages sent; it
  does if and only if every message was taken as a whole (`ArrivesExactlyInFull`).
- Lines that do not fit the buffer lose full blocks from their front, and text after the last newline
  is dropped; reading a file gives back its text if and only if neither occurs (`ReadAllIsSplit`).
- Objects that differ only in their numbers share a scalar name, and so a file, but they have the same
  columns if and only if the same positions of their names are numbered (`PositionsDecide`; the names
  without a stem at the front aside).  The header of a file is the one of its first entry
  (`DumpGroups`): every row belongs under the header of its file if and only if all recorded scalars
  of one scalar name have the same columns, and every value under the columns of its entry if and only
  if all recorded scalars of one key have (`ColumnsAreRight`).  `ForeignHeader` gives two scalars
  (`tsb0` and `tsb`) whose file has a row under a foreign header, `MergedEntry` two scalars (`tsb0.x`
  and `tsb.x0`) with one key, whose values become one entry.
- The tree's run-time check compares a node only with its children; this is weaker than key order
  (`LocalOrderIsWeaker`), while key order implies it, so that the check never fails (`Verify`).

## Model

| member | source | states |
|---|---|---|
| RedBlackTrees.RedBlackTree.constructor | src/redblacktree_impl.h:91-108 | a new tree is valid and empty |
| RedBlackTrees.RedBlackTree.IsEmpty | src/redblacktree_impl.h:217-221 | true exactly when no entry is linked |
| RedBlackTrees.RedBlackTree.Insert | src/redblacktree_impl.h:635-758 | if an equal key occurs, its node is returned and nothing changes at all; otherwise the entry is placed at its position of the tree order, every invariant of the tree holds again, and the node set grows by this node |
| RedBlackTrees.RedBlackTree.Remove | src/redblacktree_impl.h:762-931 | the tree order is the old one without exactly the position of the given node, every invariant holds again, and the node is unlinked |
| RedBlackTrees.RedBlackTree.Find | src/redblacktree_impl.h:543-567 | finds a linked node with an equal key exactly when there is one, with at most 2 log2(n + 1) comparisons |
| RedBlackTrees.RedBlackTree.GetFirst | src/redblacktree_impl.h:225-247 | the first node in tree order, or none |
| RedBlackTrees.RedBlackTree.GetLast | src/redblacktree_impl.h:251-273 | the last node in tree order, or none |
| RedBlackTrees.RedBlackTree.GetNext | src/redblacktree_impl.h:299-317 | from the node at position i to the one at i + 1, or none at the end |
| RedBlackTrees.RedBlackTree.GetPrev | src/redblacktree_impl.h:277-295 | from the node at position i to the one at i - 1: the inverse of GetNext |
| RedBlackTrees.RedBlackTree.InternalFindNext | src/redblacktree_impl.h:517-539 | the next node; with a right subtree it is that subtree's leftmost node |
| RedBlackTrees.RedBlackTree.InternalFindPrev | src/redblacktree_impl.h:491-513 | the previous node, found by descending or by climbing parents |
| RedBlackTrees.RedBlackTree.GetNearestPrev | src/redblacktree_impl.h:321-398 | the greatest entry below any probe key, present or not |
| RedBlackTrees.RedBlackTree.GetNearestNext | src/redblacktree_impl.h:402-479 | the least entry above any probe key, present or not |
| RedBlackTrees.RedBlackTree.GetNodeByValue | src/redblacktree_impl.h:935-967 | the entry at which the running sum passes the value; the last one for values beyond the total; none in an empty tree |
| RedBlackTrees.RedBlackTree.GetValueSum | src/redblacktree_impl.h:571-575 | the sum over all entries in tree order, modulo 2^64 |
| RedBlackTrees.RedBlackTree.Verify | src/redblacktree_impl.h:1073-1093 | the run-time check succeeds on every valid tree |
| RedBlackTrees.RedBlackTree.InternalVerify | src/redblacktree_impl.h:971-1069 | every check below a node succeeds, and height and count are the black height and the number of entries |
| RedBlackOrder.SortedIsLocallyOrdered | src/redblacktree_impl.h:995-1001 | key order implies the check against immediate children |
| RedBlackOrder.LocalOrderIsWeaker | src/redblacktree_impl.h:995-1001 | four distinct nodes that pass all comparisons with children and obey the color rules without being in key order |
| RedBlackOrder.HeightIsLogarithmic | src/redblacktree_impl.h:1059-1067 | the longest path of a tree with a black root is at most 2 log2(n + 1) |
| RedBlackOrder.SizeAndHeight | src/redblacktree_impl.h:1059-1067 | black height h means at least 2^(h-1) - 1 entries and no path longer than twice the black nodes |
| RedBlackRotation.RotateLeft | src/redblacktree_impl.h:579-603 | keeps order, nodes, links and all value sums, and turns the subtree to the left |
| RedBlackRotation.RotateRight | src/redblacktree_impl.h:607-631 | the mirror image |
| RedBlackInsertion.FixInsertion | src/redblacktree_impl.h:704-747 | climbing two levels per recoloring, the loop ends with equal black heights and no red-red edge, order and sums unchanged |
| RedBlackRemoval.FixRemoval | src/redblacktree_impl.h:856-920 | from a tree that lacks one black node in one subtree, the loop restores the rules, order and sums unchanged |
| RedBlackRemoval.PaintRootRed | src/redblacktree_impl.h:853-854 | painting the root red turns the unlinked tree into a state of the fix-up loop, also for the empty tree |
| RedBlackRemoval.RaisedIsLacking | src/redblacktree_impl.h:861-867 | rotating a red sister up keeps the deficit and gives a black sister |
| RedBlackRemoval.WeakenedIsLacking | src/redblacktree_impl.h:868-871 | recoloring the sister moves the deficit one level up |
| RedBlackRemoval.TwistedIsLacking | src/redblacktree_impl.h:873-880 | a red inner nephew becomes a red outer one |
| RedBlackRemoval.BalancedIsRedBlack | src/redblacktree_impl.h:881-884 | the last rotation removes the deficit |
| RedBlackLinking.UnlinkOne | src/redblacktree_impl.h:820-836 | a node with at most one child is replaced by that child, with all sums correct |
| RedBlackLinking.UnlinkTwo | src/redblacktree_impl.h:782-819 | the successor takes the node's place, adjacent or not, with all sums correct after the two walks |
| RedBlackLinking.UpdateValueSumsUpToRoot | src/redblacktree_impl.h:134-142 | if the sums beside the path are correct, all are afterwards |
| RedBlackLinking.SucceededOrder | src/redblacktree_impl.h:782-819 | moving the successor into the node's place removes exactly the node from the order |
| RedBlackShape.ZipAnywhere | src/redblacktree_impl.h:126-142 | links that hold around one place of a tree hold around every place, and conversely |
| RedBlackShape.PlugSums | src/redblacktree_impl.h:126-142 | the sums of a tree are correct exactly when those of a subtree, beside the path and on the path are |
| RedBlackShape.PlugBlack | src/redblacktree_impl.h:1057-1067 | a subtree that fits its place makes the whole tree obey the color rules |
| RedBlackShape.UnplugBlack | src/redblacktree_impl.h:1057-1067 | conversely, every place of such a tree has a black height that its subtree meets |
| ScalarTable.CompareKeysTransitive | src/createsummary.cc:150-177 | the comparison of scalar nodes is transitive |
| ScalarTable.CompareKeysIsBefore | src/createsummary.cc:150-177 | the order is that of a dictionary, by scalar name, split name, aggregate values, variable values and run, in this order |
| ScalarTable.CompareKeysMirror | src/createsummary.cc:150-177 | swapping the arguments swaps the sign |
| ScalarTable.AddedIsAppend | src/createsummary.cc:436-492 | one more value is appended to those of its key, all other keys keep theirs, and the count grows by one |
| ScalarTable.AddedKeepsHeaders | src/createsummary.cc:461-492 | an entry keeps the columns with which it was made: later values of its key do not change them |
| ScalarTable.DumpGroups | src/createsummary.cc:769-836 | the files of the loop: strictly ascending names, each name once, with exactly its rows, headed by its first entry; the rows are in the order of the keys |
| ScalarTable.GroupsTell | src/createsummary.cc:805-829 | in the file of a key's name, the rows with its run, split name, aggregate and variable values hold exactly its values, in order and numbered from 1; every key with values has a file |
| ScalarStores.Store.AddScalar | src/createsummary.cc:436-492 | the store refines a map from keys to lists of values in order of arrival |
| ScalarStores.Store.DumpScalars | src/createsummary.cc:752-855 | the files are the groups of the table; lines are rows plus files, and the rows are all collected values exactly when every entry has a scalar name, as all entries of HandleScalar have |
| ScalarStores.Store.CloseOutputFile | src/createsummary.cc:721-748 | afterwards the totals count every file so far, and for each file its rows and its header line |
| ScalarNames.GetAggregate | src/createsummary.cc:276-399 | the recursion over the segments computes the scalar name, the aggregate names and their values, within the buffer sizes; the result counts the segments; the assertion in it holds if every segment without its number is shorter than 4096 characters, which the contract demands |
| ScalarNames.ObjectFits | src/createsummary.cc:331-332 | every scalar of a file meets that demand, so that the assertion never fails: its object name comes from a buffer of 4096 characters and only gets shorter |
| ScalarNames.NameOfHierarchy | src/createsummary.cc:301-362 | the object part of a scalar name is made of the segments without their numbers: objects that differ only in these numbers share it |
| ScalarNames.Aggregated | src/createsummary.cc:286-299 | objects whose segments differ only in their numbers are aggregated under one scalar name |
| ScalarNames.NameIsNotEmpty | src/createsummary.cc:391-392 | no scalar name is empty |
| ScalarNames.NumberKeepsValue | src/createsummary.cc:349-355 | the number at the end of a segment keeps its decimal value, and loses its leading zeros |
| ScalarNames.SplitIs | src/createsummary.cc:510-523 | the part of a statistics name behind its last space is split off exactly if it begins with a digit |
| ScalarNames.StatisticIsPlain | src/createsummary.cc:188-210 | no space and no slash of a statistics name gets into the file name |
| ScalarNames.SkippedIsPrefix | src/createsummary.cc:538-546 | a scalar is skipped if and only if its name goes on from one of the prefixes |
| ScalarColumns.ThreeLevels | src/createsummary.cc:286-299 | the documented example, for any names, indices and statistic: an object with two indices and a statistic with one get the name, the columns and the values that the comment gives |
| ScalarNames.ColumnsDiffer | src/createsummary.cc:338-356 | the names of an object of one segment, for any stem and number: with and without it, one scalar name but different columns |
| ScalarColumns.AggregateIs | src/createsummary.cc:276-399 | where nothing is cut off, the two buffers hold the words of two lists, one column and one value for each number of the names |
| ScalarColumns.ColumnsDecide | src/createsummary.cc:338-382 | for scalars of one name, the texts in the buffers are equal if and only if the lists are: the columns, and the numbers |
| ScalarColumns.PositionsDecide | src/createsummary.cc:338-382 | scalars that differ only in their numbers have the same columns if and only if the same positions of the object names are numbered, when both statistics have a number or neither has; with one number there, only if the other object has one column more, of just this name; the values are equal if and only if the lists of numbers are |
| ScalarColumns.EntriesAreRight | src/createsummary.cc:454-492 | every value of every entry belongs under the columns of the entry if and only if all records of one key have the same columns |
| ScalarColumns.FilesAreRight | src/createsummary.cc:775-836 | every row of every file belongs under the header of the file if and only if all records of one scalar name have the same columns |
| ScalarColumns.ColumnsAreRight | src/createsummary.cc:775-836 | both as conditions on the scalars before the call: recorded scalars of one name, or of one key, have the same columns |
| ScalarColumns.UpperOrLower | src/createsummary.cc:286-299 | a number at the upper or at the lower segment: one scalar name and one value, but different columns |
| ScalarColumns.ForeignHeader | src/createsummary.cc:775-836 | two scalars and their file, with a row under a header that is not its own |
| ScalarColumns.MergedEntry | src/createsummary.cc:454-492 | two scalars of different objects with one key: one entry with both values under the columns of the first |
| ScalarStores.Store.HandleScalar | src/createsummary.cc:496-556 | a scalar is skipped by the prefix of its name, or its value is appended to those of its key; a new key gets the scalar's columns as its header, a known one keeps its own |
| ScalarStores.Summarize | src/createsummary.cc:752-855 | from any scalars to the files: in the order of the keys, for each key its values in order of arrival under the columns of the first one; each key's values fill just the rows with its run and texts, in order and numbered from 1; the rows are as many as the scalars that are not skipped, and the lines reported are these and one header for each file |
| ScalarColumns.ScalarIsWritten | src/createsummary.cc:496-556 | every scalar that is not skipped has a row with its own run, variable values and value in the file of its scalar name |
| ScalarStores.Store.Clear | src/createsummary.cc:1163-1168 | removing the first entry again and again ends with an empty tree and every node unlinked |
| MessageReaders.MessageReader.RegisterSocket | src/messagereader.cc:64-103 | adds one use of this socket; no reading state changes; a new socket has the protocol, the connection and the buffer size that were asked for, and no other entry changes |
| MessageReaders.MessageReader.DeregisterSocket | src/messagereader.cc:107-126 | takes one use away; the entry is forgotten exactly with the last one, and all others stay |
| MessageReaders.MessageReader.ReceiveMessage | src/messagereader.cc:142-393 | one step of the reading automaton on the bytes taken from the connection; other sockets untouched, no byte lost |
| MessageReaders.ReceiveAll | src/flowmanager.cc:898-914 | call after call on one socket, whatever each finds to read: the messages delivered are those of the direct parse of the bytes taken, and what the reader remembers is the end of that parse |
| MessageReaders.ReceiveWhole | src/control.cc:646-650 | the loop over partial reads ends, with the next message of the direct parse, an error or the end of the stream; if the connection holds another message and the socket always offers something, it is this message |
| MessageReaders.ReceiveFirst | src/messagereader.cc:64-393 | a socket is registered and read: a message of at most the registered size arrives, and just its bytes are taken |
| MessageReaders.Socket.Receive | src/messagereader.cc:163-393 | the step for one socket: errors and shutdown change nothing, a stream error is final |
| MessageReaders.Socket.HandleReceived | src/messagereader.cc:263-376 | header and payload handling in place equal the automaton on values; a partial read has 4 <= BytesRead < MessageSize <= buffer size |
| MessageFraming.ChunkingDoesNotMatter | src/messagereader.cc:142-393 | under any chunking the delivered messages are those of a direct parse, and delivered plus buffered bytes are the bytes received |
| MessageFraming.FeedParses | src/messagereader.cc:263-376 | one call advances the parse by exactly the received bytes |
| MessageFraming.ParseConserves | src/messagereader.cc:300-376 | messages and rest of a parse are the stream |
| MessageFraming.ParseFailureSticks | src/messagereader.cc:300-330 | a broken stream stays broken whatever follows, and delivers nothing more |
| MessageFraming.ParseIsRight | src/messagereader.cc:263-376 | every message delivered has a length of at least 4 that fits both buffers; a parse fails exactly at a header that cannot begin such a message, and otherwise leaves an unfinished one |
| MessageFraming.MessagesArrive | src/messagereader.cc:142-393 | of a stream of well-formed messages any part delivers the first ones unchanged, and the whole delivers all |
| DataMessages.DecodeEncode | src/transfer.cc:90-109 | the receiver reads every header field and the payload as they were sent |
| DataMessages.EncodeLayout | src/netperfmeterpackets.h:171-189 | each field at its place in the packed structure, in network byte order, and the BEGIN and END bits |
| DataMessages.EncodeIsWellFormed | src/transfer.cc:101 | the length field is the length of the message |
| Transfers.FillPayload | src/transfer.cc:49-73 | counts from 30 up to 127 and again from 30, or from 127 down to 30, and writes nothing else |
| Transfers.Flow.SendNetPerfMeterData | src/transfer.cc:77-197 | at least 48 bytes, with the next sequence number and the byte count before the frame |
| Transfers.Flow.TransmitFrame | src/transfer.cc:201-243 | the messages of the frame against the socket's answers, until a send fails; counters and statistics follow what was sent |
| FrameStreams.WireIsCounted | src/flow.cc:201-218 | the counts passed to the statistics are the bytes and the sends on the wire, whatever the socket answers |
| FrameStreams.FrameIsSplit | src/transfer.cc:211-236 | if the socket takes each message as a whole: full messages and a last one, BEGIN only on the first, END only on the last, consecutive numbers, between size and size + 47 bytes in all |
| FrameStreams.FrameIsNumbered | src/transfer.cc:211-236 | for any answers of the socket: one identity, frame number, byte offset and time, consecutive sequence numbers, BEGIN only on the first message, and the payload pattern in each |
| FrameStreams.FrameGoesOn | src/transfer.cc:211-236 | for any answers of the socket: each message takes as much as is left and fits, and 48 bytes at least, with END exactly if that is all; the frame goes on from what was taken, until it is sent or nothing is taken |
| FrameStreams.SentIsTrace | src/transfer.cc:201-243 | for any list of frames and any answers: messages numbered consecutively, BEGIN flags opening the frames; END flags closing them if every message is taken as a whole |
| FrameStreams.TransmitFrames | src/transfer.cc:201-243 | frames sent one after the other put exactly what the socket takes on the wire; frames, sends and bytes are counted |
| FrameStreams.FramesArrive | src/messagereader.cc:142-393 | sender to receiver: if every message is taken as a whole, the messages read back under any chunking decode to the messages sent, in order |
| FrameStreams.ArrivesExactlyInFull | src/transfer.cc:224-233 | the whole stream reads back as the messages of the sender if and only if no send was short or failed |
| Defragmenters.Defragmenter.AddFragment | src/defragmenter.cc:99-144 | an ordered insertion without duplicates; only a new frame gets a time stamp |
| Defragmenters.PutStamps | src/defragmenter.cc:99-144 | frames keep their time stamps; the only new one is that of a new frame, with the time of arrival |
| Defragmenters.Defragmenter.GetNextFragment | src/defragmenter.cc:160-203 | from any place, with and without erasing: what lies ahead loses just its first fragment, and the current one is erased, with its frame if it was the last one |
| Defragmenters.Defragmenter.GetFirstFragment | src/defragmenter.cc:142-156 | a walk starts with all fragments ahead, in the order of frames and numbers |
| Defragmenters.Defragmenter.Purge | src/defragmenter.cc:207-246 | removes the frames at the front up to the first one whose time stamp plus the timeout has not been reached, and counts their fragments in order |
| Defragmenters.EraseFirstKeeps | src/defragmenter.cc:222-244 | one round of the purge changes neither what is to be counted nor what is to be kept |
| GapCounting.LossIsMissingPlusLate | src/defragmenter.cc:226-239 | the counted loss is the missing numbers plus those that came after they had been passed |
| GapCounting.PassAllTelescopes | src/defragmenter.cc:226-239 | received plus lost numbers are all numbers below the next expected one |
| LossAccounting.LossIsExactUnlessLate | src/defragmenter.cc:99-246 | after any arrivals and purges: packet and frame losses are the missing numbers plus the late ones, exact if and only if nothing came late; counted plus lost packets are NextPacketSeqNumber, received plus lost frames are NextFrameID |
| LossAccounting.TimelyIsExact | src/defragmenter.cc:226-239 | if no message arrives after its frame number was passed, nothing is late and both losses are exact |
| LossAccounting.InSequenceIsLossless | src/defragmenter.cc:99-246 | messages arriving one after the other, with purges at any times: nothing is late, no packet and no frame is reported lost |
| LossAccounting.LateExample | src/defragmenter.cc:226-239 | two messages, the second one purged before the first one comes: both were delivered, and one packet and one frame are reported lost |
| LossAccounting.HistoryIsArrivals | src/defragmenter.cc:99-144 | the delivered numbers are those of the messages that arrived |
| LossAccounting.PurgeRemovesExpiredFront | src/defragmenter.cc:207-246 | whole frames: the front ones whose time stamp plus the timeout has been reached, up to the first one for which it has not, and no empty frame is left |
| LossAccounting.PassedIsTimedOut | src/defragmenter.cc:225-230 | a frame number is passed only by a purge at which the timeout of one of its messages is over |
| LossAccounting.ReorderingIsHarmless | src/defragmenter.cc:99-246 | if every message comes before a purge has reached the timeout of any message of the same or a later frame, nothing is late and both losses are exact |
| LossAccounting.BeforeTimeoutIsNotLate | src/defragmenter.cc:225-244 | a message that comes before a purge has reached the timeout of its frame's first fragment is not late, if that one was not |
| LossAccounting.ReceivingFlow.UpdateStatistics | src/transfer.cc:384-418 | the flow's loss counters are those of the run of arrivals and purges |
| ByteAccounting.BytesTelescope | src/defragmenter.cc:232-235 | after any arrivals and purges, counted lengths plus lost bytes are NextByteSeqNumber |
| ByteAccounting.LostBytesAreUncounted | src/defragmenter.cc:232-235 | with one offset for each frame, the lost bytes are those of all messages of the frames before the last received one, but for one message of each received frame |
| ByteAccounting.SinglesLoss | src/defragmenter.cc:232-235 | with one message for each frame, lost bytes are those of the missing messages plus those of the late ones: exact if and only if nothing came late |
| ByteAccounting.LostBytesAndTruth | src/defragmenter.cc:232-235 | in general: what is reported beyond the missing bytes, and what is missing but not reported |
| ByteAccounting.DeliveredIsComplete | src/defragmenter.cc:207-246 | every message delivered in any order, then a purge after the timeout: everything is counted and nothing is late |
| DataPath.LossOfSentFrames | src/transfer.cc:201-243 | the exactness of the packet and frame losses for the frames of any new flow and any answers of its socket |
| DataPath.StreamIsLossless | src/transfer.cc:201-418 | frames of a new flow over a stream that takes every message as a whole, any part of it read in any chunks, purges at any times: nothing comes late, lost packets and frames are zero, and all numbers below the next expected ones were counted |
| DataPath.WholeStreamIsCounted | src/transfer.cc:201-418 | when all has been read and the defragmenter is empty, every message and every frame was counted, and the lost bytes are zero if and only if every frame but the last one fits a message |
| DataPath.SentIsOffset | src/transfer.cc:108 | all messages of a frame carry the number of bytes sent before the frame |
| DataPath.ByteLossOfSingleMessages | src/transfer.cc:201-243 | if every frame fits a message, lost bytes are exact for any delivery if and only if nothing came late |
| DataPath.LosslessByteLoss | src/transfer.cc:241 | when all was delivered and nothing came late, the lost bytes reported are zero if and only if every frame but the last one fits a message |
| DataPath.ByteLossExample | src/transfer.cc:108 | two frames of 3000 bytes sent in messages of 1000 bytes, all delivered in order and purged: 2000 bytes are reported lost |
| FileTransfer.UploadOutputFile | src/control.cc:689-743 | sends the rest of the file in blocks of 1400 bytes with an EOF flag at the end |
| FileTransfer.DownloadOutputFile | src/control.cc:51-123 | reads up to the EOF flag, failing on any other message |
| FileTransfer.DownloadStops | src/control.cc:69-113 | a download ends at the first message that is no part of the file or has the EOF flag, with success just in the latter case; it gives the data up to there and leaves what follows |
| FileTransfer.DownloadOfUpload | src/control.cc:51-123 | every file arrives as it was sent, and nothing that follows is touched |
| FileTransfer.ChunksEnd | src/control.cc:708-730 | exactly the last message has the EOF flag; n bytes take n / 1400 + 1 messages, also for full blocks and the empty file |
| PassiveNodes.PassiveNode.FindFlow | src/flowmanager.cc:158-178 | the first flow with this measurement, flow and stream |
| PassiveNodes.PassiveNode.HandleAddFlow | src/control.cc:770-858 | a new flow at the end and an acknowledgement, or an error for a known one and no change |
| PassiveNodes.PassiveNode.HandleRemoveFlow | src/control.cc:863-900 | just the first flow with the key goes, with acknowledgement and file exactly if it has a vector file; an error and no change for an unknown flow |
| PassiveNodes.PassiveNode.HandleStart | src/control.cc:905-948 | starts the measurement and its flows once; flows of other measurements and their files stay as they are |
| PassiveNodes.PassiveNode.HandleStop | src/control.cc:953-1016 | stops the measurement, and uploads exactly the files that exist, the vector file first; flows of other measurements and their files stay as they are |
| PassiveNodes.PassiveNode.HandleIdentifyFlow | src/control.cc:1110-1151 | maps the socket and acknowledges only the first time; no other flow changes |
| PassiveNodes.PassiveNode.MarkFlows | src/flowmanager.cc:244-268 | every flow of the measurement gets the mark and keeps everything else; every other flow is unchanged |
| ControlSessions.SessionIsSafe | src/control.cc:619-676 | in every run each await meets its own acknowledgement, each download its own file, and no other failure occurs |
| ControlSessions.IdentifyOnce | src/control.cc:261-338 | each flow's IDENTIFY is acknowledged at most once; nothing of it is left when the active side goes on |
| ControlSessions.LateIdentifyIsHarmless | src/flowmanager.cc:427-457 | further copies of an answered IDENTIFY change nothing, whenever they arrive |
| ControlSessions.SessionEndsClean | src/control.cc:501-615 | at the end both channels are empty, no flow and no measurement is left, and every file has arrived |
| ControlSessions.SessionGoesOn | src/control.cc:160-615 | neither side gets stuck |
| ControlSessions.SessionTerminates | src/control.cc:160-615 | every run in which no side stops for good while it can act comes to its end and stays there, whatever copies of IDENTIFY arrive; unless the active side gave up, nothing is left |
| ControlSessions.StepGetsSmaller | src/control.cc:160-615 | every step brings the session closer to its end, except for an IDENTIFY that changes nothing |
| ControlSessions.StepKeeps | src/control.cc:160-1016 | every step of either side and of the network keeps the session invariant |
| ControlSessions.ControlKeeps | src/control.cc:747-1016 | the passive side's answer to a command is the one that the active side's place in the session calls for |
| ControlSessions.IdentifyKeeps | src/control.cc:1110-1151 | an arriving IDENTIFY either answers the flow being identified or changes nothing |
| ControlSessions.PerformIdentifyFlow | src/control.cc:261-338 | the retry loop succeeds exactly when one of its trials is acknowledged, and stops at the first; it has one trial for a reliable flow and five for any other |
| ControlSessions.OtherRepliesFail | src/control.cc:619-676 | any reply but the okay acknowledgement that is awaited ends the session, or just the trial; any but a part of the file ends it in a download |
| ControlSessions.MeasurementRuns | src/control.cc:342-480 | in every run: one or five trials at most; and between START and STOP the passive side runs just this measurement with all of its flows, in order, identified and with the files that are wanted |
| ControlSessions.AwaitAcknowledge | src/control.cc:619-676 | true exactly for an okay acknowledgement of the same measurement, flow and stream |
| InputFiles.InputFile.ReadLine | src/inputfile.cc:122-175 | the next line, or the end; stored plus unread text is what has not been returned, and Line counts lines |
| InputFiles.ReadFromNextLine | src/inputfile.cc:133-174 | the next line without the blocks that were too long; text after the last newline is dropped |
| InputFiles.ReadAllLines | src/inputfile.cc:122-175 | all lines up to the end of the file, counted by Line |
| InputFiles.ReadAllIsSplit | src/inputfile.cc:122-175 | reading gives back the text if and only if every line fits with its newline and the last one is finished |
| InputFiles.BufferFits | src/inputfile.cc:122-175 | for a given buffer: if and only if every line fits it with its newline and the terminating zero, and 16384 bytes with its newline, and the last line is finished |
| IntervalStatistics.PlusLaws | src/flowbandwidthstats.cc:47-83 | the counters form a commutative group, wrap-around included |
| IntervalStatistics.SumUpdate | src/flowmanager.cc:738-741 | adding a flow's difference to the global counters replaces its last values in the sum |
| IntervalStatistics.FlowManager.WriteVectorStatistics | src/flowmanager.cc:709-806 | one row for each flow of the measurement, with its values and what has been added since its last row; the totals row is the sum of the rows, in absolute and in interval values; per flow the rows sum up to its last values, and all global differences to the global counters |
| IntervalStatistics.FlowManager.RemoveFlow | src/flowmanager.cc:113-139 | the global counters stay the sum over all flows, the removed ones included |

## Left out

- Sockets, poll, files, bzip2, threads and mutexes: a locked region is one atomic step, a read takes any number of the bytes that are there, files are byte sequences, and file operations succeed.
- The list links of the leaf-linked tree variant, printing, and debug output.
- RedBlackTrees.RedBlackTree.GetNearestPrev: two branches of the source that cannot be reached (a missing parent after a comparison, and a nonempty left subtree of a parent whose left place the search ended at) are not repeated; the same for GetNearestNext.
- RedBlackTrees.RedBlackTree.Remove: calls the internal search for the next node, where the source calls GetNext, which only adds the conversion of the sentinel to NULL.
- ScalarStores.Store.AddScalar: strings are values, so that duplicating and releasing them, and running out of memory, is not modelled; the map from embedded nodes to their objects stands for pointer arithmetic.
- ScalarStores.Store.DumpScalars: rows are records; number formats, separators, quotation, the line-number column and the compression totals are not modelled.
- Parsing of scalar files and the command line of CreateSummary: a list of scalars stands for the files.
- ScalarColumns.ColumnsAreRight: assumes that the names, columns and values of the scalars fit their buffers of 4096, 256 and 8192 characters; ScalarColumns.FilesAreRight and EntriesAreRight, on the texts in the buffers, do not.
- ScalarNames.GetAggregate: the cuts that it makes in the strings of its caller, and numbers of 2^63 and more at the end of a segment, are not modelled.
- MessageReaders.ReceiveAll: the socket's poll events are a list of offered byte counts; all calls have the same buffer size.
- MessageReaders.MessageReader.ReceiveMessage: SCTP notifications and message boundaries, DCCP, sender addresses and flags.
- Transfers.Flow.TransmitFrame: the drawn frame size and the clock are parameters, and the kinds of send calls and the abort on errors are not told apart.
- FrameStreams.FrameIsSplit: needs a maximum message size of at least 48 bytes; the command line enforces 128 to 65535.
- LossAccounting.ReorderingIsHarmless: assumes that time stamps plus timeouts do not wrap around; the same for BeforeTimeoutIsNotLate.
- LossAccounting.LossIsExactUnlessLate: assumes that no counter wraps around, that is, fewer than 2^32 - 1 frames and 2^64 - 1 messages.
- LossAccounting.ReceivingFlow.UpdateStatistics: delay and jitter (floating point), the reception times and the vector file line.
- ByteAccounting.LostBytesAreUncounted: assumes that byte numbers do not wrap around, and, in DataPath, that the socket takes every message as a whole.
- Defragmenters.Defragmenter.GetNextFragment: a place of a walk is a pair of positions, where the source has iterators; nothing is added to the frames during a walk.
- PassiveNodes.PassiveNode.HandleStart: a measurement is known by its number alone, where the source also takes the control connection; the same for HandleStop.
- PassiveNodes.PassiveNode.HandleAddFlow: of the flow's traffic parameters only the key is modelled; malformed and unknown control messages and control connection failures are not.
- ControlSessions.SessionIsSafe: one session with one measurement; measurement files are opened and closed without errors; the data exchange between START and STOP is not part of the session.
- The on/off schedule of flows, random generators, display, CPU statistics, and QUIC and TLS handshakes.
- InputFiles.InputFile.ReadLine: the terminating zero byte in the buffer, and reads from a compressed file that return less than is there.
